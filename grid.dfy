/** Shared notions about the 9x9 grids both the genetic solver and the
    pencil-mark helper work on: rows, columns, 3x3 boxes and the set of
    values a unit holds. A grid is a list of nine rows of nine integers;
    0 stands for an empty cell. */
module SudokuGrid {

  datatype Option<T> = None | Some(value: T)

  predicate IsGrid(g: seq<seq<int>>) {
    |g| == 9 && forall i :: 0 <= i < 9 ==> |g[i]| == 9
  }

  /** A 9x9 grid of integers (the source's list of nine lists of nine ints). */
  type Grid = g: seq<seq<int>> | IsGrid(g) witness seq(9, _ => seq(9, _ => 0))

  /** The grid with every cell 0 (`[[0] * 9 for _ in range(9)]`). */
  function EmptyGrid(): (g: Grid)
    ensures forall i, j :: 0 <= i < 9 && 0 <= j < 9 ==> g[i][j] == 0
  {
    seq(9, _ => seq(9, _ => 0))
  }

  /** The grid `g` with cell (r, c) overwritten by `v`. */
  function WithCell(g: Grid, r: int, c: int, v: int): (h: Grid)
    requires 0 <= r < 9 && 0 <= c < 9
    ensures h[r][c] == v
    ensures forall i, j :: 0 <= i < 9 && 0 <= j < 9 && (i != r || j != c) ==> h[i][j] == g[i][j]
  {
    g[r := g[r][c := v]]
  }

  /** The digits a solved unit holds. */
  const Digits: set<int> := set v | 1 <= v <= 9

  lemma DigitsCount()
    ensures |Digits| == 9
  {
    forall v | v in Digits ensures v in {1, 2, 3, 4, 5, 6, 7, 8, 9} {
      assert v == 1 || v == 2 || v == 3 || v == 4 || v == 5 || v == 6 || v == 7 || v == 8 || v == 9;
    }
    assert Digits == {1, 2, 3, 4, 5, 6, 7, 8, 9};
  }

  /** Column `c` read top to bottom. */
  function Column(g: Grid, c: int): (col: seq<int>)
    requires 0 <= c < 9
    ensures |col| == 9 && forall j :: 0 <= j < 9 ==> col[j] == g[j][c]
  {
    seq(9, j requires 0 <= j < 9 => g[j][c])
  }

  /** Which third of 0..8 index x lies in (x // 3 on 0..8), written as a
      case split so that the solver sees no division. */
  function Band(x: int): int {
    if x < 3 then 0 else if x < 6 then 1 else 2
  }

  /** On 0..8, Band is Python's `x // 3`, and `x % 3` is x - 3 * Band(x). */
  lemma BandIsDivision(x: int)
    requires 0 <= x < 9
    ensures x / 3 == Band(x) && x % 3 == x - 3 * Band(x)
  {
  }

  /** Box b starts at row b // 3 * 3 and column b % 3 * 3. */
  function BoxTop(b: int): int { 3 * Band(b) }
  function BoxLeft(b: int): int { 3 * (b - 3 * Band(b)) }

  /** Box `b` read row by row; its k-th cell is
      (BoxTop(b) + k // 3, BoxLeft(b) + k % 3). */
  function Box(g: Grid, b: int): (box: seq<int>)
    requires 0 <= b < 9
    ensures |box| == 9
    ensures forall k :: 0 <= k < 9 ==> box[k] == g[BoxTop(b) + Band(k)][BoxLeft(b) + k - 3 * Band(k)]
  {
    seq(9, k requires 0 <= k < 9 => g[BoxTop(b) + Band(k)][BoxLeft(b) + k - 3 * Band(k)])
  }

  /** The box holding cell (r, c), and the cell's position inside it. */
  function BoxOf(r: int, c: int): int { 3 * Band(r) + Band(c) }
  function PositionInBox(r: int, c: int): int { 3 * (r - 3 * Band(r)) + c - 3 * Band(c) }

  /** The nine boxes cover every cell exactly once: the k-th cell of box b
      lies in box b at position k (BoxCellOf), and every cell is the
      PositionInBox-th cell of its BoxOf box (CellInBox). */
  lemma BoxCellOf(b: int, k: int)
    requires 0 <= b < 9 && 0 <= k < 9
    ensures 0 <= BoxTop(b) + Band(k) < 9 && 0 <= BoxLeft(b) + k - 3 * Band(k) < 9
    ensures BoxOf(BoxTop(b) + Band(k), BoxLeft(b) + k - 3 * Band(k)) == b
    ensures PositionInBox(BoxTop(b) + Band(k), BoxLeft(b) + k - 3 * Band(k)) == k
  {
  }

  lemma CellInBox(r: int, c: int)
    requires 0 <= r < 9 && 0 <= c < 9
    ensures 0 <= BoxOf(r, c) < 9 && 0 <= PositionInBox(r, c) < 9
    ensures BoxTop(BoxOf(r, c)) + Band(PositionInBox(r, c)) == r
    ensures BoxLeft(BoxOf(r, c)) + PositionInBox(r, c) - 3 * Band(PositionInBox(r, c)) == c
  {
  }

  /** Position 3 * di + dj of the box holding (r, c) is the cell di rows
      and dj columns from the box's top-left corner. */
  lemma BoxOffset(r: int, c: int, di: int, dj: int)
    requires 0 <= r < 9 && 0 <= c < 9 && 0 <= di < 3 && 0 <= dj < 3
    ensures 0 <= BoxOf(r, c) < 9
    ensures BoxTop(BoxOf(r, c)) + Band(3 * di + dj) == 3 * Band(r) + di
    ensures BoxLeft(BoxOf(r, c)) + (3 * di + dj) - 3 * Band(3 * di + dj) == 3 * Band(c) + dj
  {
  }

  /** The source walks the box of (r, c) as rows r // 3 * 3 .. + 2 and
      columns c // 3 * 3 .. + 2; cell (i, j) of that walk is entry k of Box. */
  lemma BoxEntry(g: Grid, r: int, c: int, i: int, j: int, k: int)
    requires 0 <= r < 9 && 0 <= c < 9
    requires r / 3 * 3 <= i < r / 3 * 3 + 3 && c / 3 * 3 <= j < c / 3 * 3 + 3
    requires k == (i - r / 3 * 3) * 3 + (j - c / 3 * 3)
    ensures 0 <= i < 9 && 0 <= j < 9 && 0 <= k < 9
    ensures Box(g, BoxOf(r, c))[k] == g[i][j]
  {
    BandIsDivision(r);
    BandIsDivision(c);
    BoxOffset(r, c, i - r / 3 * 3, j - c / 3 * 3);
  }

  /** Cell p of the row-major visiting order is (CellRow(p), CellCol(p)). */
  function CellRow(p: int): int { p / 9 }
  function CellCol(p: int): int { p % 9 }

  lemma CellIndex(p: int, r: int, c: int)
    requires 0 <= p < 81 && 0 <= r < 9 && 0 <= c < 9
    ensures 0 <= CellRow(p) < 9 && 0 <= CellCol(p) < 9
    ensures CellRow(p) == r && CellCol(p) == c <==> p == 9 * r + c
  {
  }

  /** Cells (r1, c1) and (r2, c2) lie in a common row, column or 3x3 box
      (a cell shares every unit with itself). */
  predicate SharesUnit(r1: int, c1: int, r2: int, c2: int) {
    r1 == r2 || c1 == c2 || (Band(r1) == Band(r2) && Band(c1) == Band(c2))
  }

  /** Two cells share a box exactly when BoxOf maps them to the same box. */
  lemma SameBox(r1: int, c1: int, r2: int, c2: int)
    requires 0 <= r1 < 9 && 0 <= c1 < 9 && 0 <= r2 < 9 && 0 <= c2 < 9
    ensures (Band(r1) == Band(r2) && Band(c1) == Band(c2)) <==> BoxOf(r1, c1) == BoxOf(r2, c2)
  {
  }

  /** The set of values a unit holds (Python's `set(...)` of it). */
  function Values(s: seq<int>): set<int> {
    set x | x in s
  }

  predicate Distinct(s: seq<int>) {
    forall i, j :: 0 <= i < j < |s| ==> s[i] != s[j]
  }

  /** Extending a prefix by one element. */
  lemma PrefixSnoc<T>(s: seq<T>, t: int)
    requires 0 <= t < |s|
    ensures s[..t + 1] == s[..t] + [s[t]]
  {
  }

  lemma ValuesSnoc(s: seq<int>, x: int)
    ensures Values(s + [x]) == Values(s) + {x}
  {
    assert forall y :: y in s + [x] <==> y in s || y == x;
  }

  lemma ValuesPrefixStep(s: seq<int>, k: int)
    requires 0 <= k < |s|
    ensures Values(s[..k + 1]) == Values(s[..k]) + {s[k]}
  {
    assert s[..k + 1] == s[..k] + [s[k]];
    ValuesSnoc(s[..k], s[k]);
  }

  /** Appending x keeps the entries pairwise distinct exactly when x is new. */
  lemma DistinctSnoc(init: seq<int>, x: int)
    ensures Distinct(init + [x]) <==> Distinct(init) && x !in init
  {
    var s := init + [x];
    if Distinct(s) {
      forall i, j | 0 <= i < j < |init| ensures init[i] != init[j] {
        assert s[i] != s[j];
      }
      forall i | 0 <= i < |init| ensures init[i] != x {
        assert s[i] != s[|init|];
      }
    }
    if Distinct(init) && x !in init {
      forall i, j | 0 <= i < j < |s| ensures s[i] != s[j] {
        if j == |init| {
          assert init[i] in init;
        } else {
          assert init[i] != init[j];
        }
      }
    }
  }

  /** A unit of n cells holds between 1 and n distinct values, and exactly n
      when its entries are pairwise distinct. */
  lemma {:induction false} ValuesCardinality(s: seq<int>)
    ensures |Values(s)| <= |s|
    ensures |s| > 0 ==> |Values(s)| >= 1
    ensures |Values(s)| == |s| <==> Distinct(s)
  {
    if |s| == 0 {
      assert Values(s) == {};
    } else {
      var init, x := s[..|s| - 1], s[|s| - 1];
      assert s == init + [x];
      ValuesCardinality(init);
      ValuesSnoc(init, x);
      DistinctSnoc(init, x);
      if x in init {
        assert x in Values(init);
        assert Values(s) == Values(init);
      } else {
        assert x !in Values(init);
        assert |Values(s)| == |Values(init)| + 1;
      }
    }
  }

  /** A subset of equal size is the whole set. */
  lemma SubsetOfSameSize(a: set<int>, b: set<int>)
    requires a <= b && |a| == |b|
    ensures a == b
  {
    assert b == a + (b - a);
    assert |b - a| == 0;
  }

  /** A unit of nine entries, all in 1..9, holds nine distinct values exactly
      when it is a permutation of the digits 1..9. */
  lemma DistinctDigitsArePermutation(s: seq<int>)
    requires |s| == 9
    requires forall i :: 0 <= i < 9 ==> 1 <= s[i] <= 9
    ensures Distinct(s) <==> Values(s) == Digits
  {
    ValuesCardinality(s);
    assert Values(s) <= Digits;
    DigitsCount();
    if Distinct(s) {
      SubsetOfSameSize(Values(s), Digits);
    }
  }
}
