/** Candidate digits for a cell (`get_valid_numbers` of genetic_algorithm.py):
    the digits 1..9 that occur nowhere in the cell's row, column or box. */
module ValidNumbers {
  import opened SudokuGrid

  /** Value v occurs in no cell that shares a unit with (r, c). */
  predicate AbsentFromUnits(g: Grid, r: int, c: int, v: int)
    requires 0 <= r < 9 && 0 <= c < 9
  {
    forall i, j :: 0 <= i < 9 && 0 <= j < 9 && SharesUnit(r, c, i, j) ==> g[i][j] != v
  }

  /** The digits left after discarding every value of row r, column c and
      the box of (r, c) from {1, ..., 9}. */
  function Candidates(g: Grid, r: int, c: int): (s: set<int>)
    requires 0 <= r < 9 && 0 <= c < 9
    ensures s <= Digits
  {
    Digits - Values(g[r]) - Values(Column(g, c)) - Values(Box(g, BoxOf(r, c)))
  }

  /** The candidates of (r, c) are exactly the digits 1..9 that occur in no
      cell sharing a row, column or box with (r, c). */
  lemma CandidatesMeaning(g: Grid, r: int, c: int)
    requires 0 <= r < 9 && 0 <= c < 9
    ensures forall v :: v in Candidates(g, r, c) <==> 1 <= v <= 9 && AbsentFromUnits(g, r, c, v)
  {
    forall v ensures v in Candidates(g, r, c) <==> 1 <= v <= 9 && AbsentFromUnits(g, r, c, v) {
      CandidateIff(g, r, c, v);
    }
  }

  lemma CandidateIff(g: Grid, r: int, c: int, v: int)
    requires 0 <= r < 9 && 0 <= c < 9
    ensures v !in Values(g[r]) + Values(Column(g, c)) + Values(Box(g, BoxOf(r, c)))
            <==> AbsentFromUnits(g, r, c, v)
  {
    if v !in Values(g[r]) + Values(Column(g, c)) + Values(Box(g, BoxOf(r, c))) {
      forall i, j | 0 <= i < 9 && 0 <= j < 9 && SharesUnit(r, c, i, j) ensures g[i][j] != v {
        PeerValueListed(g, r, c, i, j);
      }
    } else {
      ListedValueIsPeer(g, r, c, v);
    }
  }

  /** The value of any cell sharing a unit with (r, c) is among the values
      the source discards for (r, c). */
  lemma PeerValueListed(g: Grid, r: int, c: int, i: int, j: int)
    requires 0 <= r < 9 && 0 <= c < 9 && 0 <= i < 9 && 0 <= j < 9
    requires SharesUnit(r, c, i, j)
    ensures g[i][j] in Values(g[r]) + Values(Column(g, c)) + Values(Box(g, BoxOf(r, c)))
  {
    if i == r {
      assert g[r][j] in g[r];
    } else if j == c {
      assert Column(g, c)[i] == g[i][j];
    } else {
      SameBox(r, c, i, j);
      CellInBox(i, j);
      assert Box(g, BoxOf(r, c))[PositionInBox(i, j)] == g[i][j];
    }
  }

  /** Every value the source discards for (r, c) sits in a cell sharing a
      unit with (r, c). */
  lemma ListedValueIsPeer(g: Grid, r: int, c: int, v: int)
    requires 0 <= r < 9 && 0 <= c < 9
    requires v in Values(g[r]) + Values(Column(g, c)) + Values(Box(g, BoxOf(r, c)))
    ensures !AbsentFromUnits(g, r, c, v)
  {
    if v in Values(g[r]) {
      var j :| 0 <= j < 9 && g[r][j] == v;
      assert SharesUnit(r, c, r, j);
    } else if v in Values(Column(g, c)) {
      var i :| 0 <= i < 9 && Column(g, c)[i] == v;
      assert SharesUnit(r, c, i, c);
    } else {
      var b := BoxOf(r, c);
      CellInBox(r, c);
      var k :| 0 <= k < 9 && Box(g, b)[k] == v;
      BoxCellOf(b, k);
      var i, j := BoxTop(b) + Band(k), BoxLeft(b) + k - 3 * Band(k);
      SameBox(r, c, i, j);
      assert SharesUnit(r, c, i, j);
    }
  }

  /** The members of s between `from` and 9, in increasing order. */
  function AscendingFrom(s: set<int>, from: int): (list: seq<int>)
    requires 1 <= from <= 10
    ensures forall x :: x in list <==> x in s && from <= x <= 9
    ensures forall i, j :: 0 <= i < j < |list| ==> list[i] < list[j]
    decreases 10 - from
  {
    if from == 10 then []
    else
      var rest := AscendingFrom(s, from + 1);
      assert forall k :: 0 <= k < |rest| ==> rest[k] in rest;
      if from in s then [from] + rest else rest
  }

  /** `list(valid_numbers)`: a set of digits as a list. CPython lists a set
      of small integers in increasing order; the order only decides which
      position a random choice lands on. */
  function AscendingList(s: set<int>): (list: seq<int>)
    requires s <= Digits
    ensures forall x :: x in list <==> x in s
    ensures |list| == 0 <==> s == {}
  {
    var list := AscendingFrom(s, 1);
    AscendingListNonEmpty(s, list);
    list
  }

  lemma AscendingListNonEmpty(s: set<int>, list: seq<int>)
    requires forall x :: x in list <==> x in s
    ensures |list| == 0 <==> s == {}
  {
    if |list| > 0 {
      var y := list[0];
      assert y in list;
      assert y in s;
    } else {
      assert forall x :: x !in s;
    }
  }

  /** get_valid_numbers: start from {1, ..., 9} and discard the values of
      the row, the column and the 3x3 box of (row, col). */
  method GetValidNumbers(grid: Grid, row: int, col: int) returns (validNumbers: seq<int>)
    requires 0 <= row < 9 && 0 <= col < 9
    ensures validNumbers == AscendingList(Candidates(grid, row, col))
  {
    var valid := Digits;
    for j := 0 to 9
      invariant valid == Digits - Values(grid[row][..j])
    {
      ValuesPrefixStep(grid[row], j);
      valid := valid - {grid[row][j]};
    }
    assert grid[row][..9] == grid[row];
    ghost var column := Column(grid, col);
    for i := 0 to 9
      invariant valid == Digits - Values(grid[row]) - Values(column[..i])
    {
      ValuesPrefixStep(column, i);
      valid := valid - {grid[i][col]};
    }
    assert column[..9] == column;
    var boxRow := (row / 3) * 3;
    var boxCol := (col / 3) * 3;
    ghost var box := Box(grid, BoxOf(row, col));
    ghost var lines := valid;
    ghost var k := 0;
    for i := boxRow to boxRow + 3
      invariant k == (i - boxRow) * 3
      invariant valid == lines - Values(box[..k])
    {
      for j := boxCol to boxCol + 3
        invariant k == (i - boxRow) * 3 + (j - boxCol)
        invariant valid == lines - Values(box[..k])
      {
        BoxEntry(grid, row, col, i, j, k);
        ValuesPrefixStep(box, k);
        valid := valid - {grid[i][j]};
        k := k + 1;
      }
    }
    assert box[..k] == box;
    validNumbers := AscendingList(valid);
  }
}
