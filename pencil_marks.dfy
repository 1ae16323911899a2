/** The naked-single propagation of main.py, as functions on grid values:
    the pencil marks of a cell (`calculate_pencil_marks`), the number of
    empty cells, and what a sound run of `fill_obvious_squares` leaves
    behind. */
module PencilMarking {
  import opened SudokuGrid
  import opened ValidNumbers

  /** The non-zero values of a unit. */
  function NonZeroValues(s: seq<int>): set<int> {
    Values(s) - {0}
  }

  lemma NonZeroValuesStep(s: seq<int>, k: int)
    requires 0 <= k < |s|
    ensures NonZeroValues(s[..k + 1]) == NonZeroValues(s[..k]) + (if s[k] != 0 then {s[k]} else {})
  {
    ValuesPrefixStep(s, k);
  }

  /** One step of a discarding loop: removing entry k (when it is not 0)
      from what is left after the first k entries leaves what is left
      after the first k + 1. */
  lemma DiscardStep(marks: set<int>, base: set<int>, s: seq<int>, k: int)
    requires 0 <= k < |s| && marks == base - NonZeroValues(s[..k])
    ensures (if s[k] != 0 then marks - {s[k]} else marks) == base - NonZeroValues(s[..k + 1])
  {
    NonZeroValuesStep(s, k);
  }

  /** The digits 1..9 minus every non-zero value of row r, column c and the
      box of (r, c). */
  function PencilMarks(g: Grid, r: int, c: int): (marks: set<int>)
    requires 0 <= r < 9 && 0 <= c < 9
    ensures marks <= Digits
  {
    Digits - NonZeroValues(g[r]) - NonZeroValues(Column(g, c)) - NonZeroValues(Box(g, BoxOf(r, c)))
  }

  /** Skipping zeros changes nothing, because 0 is not a digit: the pencil
      marks are exactly the candidates `get_valid_numbers` computes, on
      every grid; so they are the digits 1..9 that occur in no cell sharing
      a unit with (r, c). */
  lemma PencilMarksAreCandidates(g: Grid, r: int, c: int)
    requires 0 <= r < 9 && 0 <= c < 9
    ensures PencilMarks(g, r, c) == Candidates(g, r, c)
    ensures forall v :: v in PencilMarks(g, r, c) <==> 1 <= v <= 9 && AbsentFromUnits(g, r, c, v)
  {
    var marks, candidates := PencilMarks(g, r, c), Candidates(g, r, c);
    forall v ensures v in marks <==> v in candidates {
      if v == 0 {
        assert v !in Digits;
      }
    }
    CandidatesMeaning(g, r, c);
  }

  /** The number of zeros in a row. */
  function ZerosIn(s: seq<int>): (n: nat)
    ensures n <= |s|
  {
    if |s| == 0 then 0 else ZerosIn(s[..|s| - 1]) + (if s[|s| - 1] == 0 then 1 else 0)
  }

  /** The number of empty cells in the first n rows. */
  function ZerosUpTo(g: Grid, n: int): (z: nat)
    requires 0 <= n <= 9
    ensures z <= 9 * n
  {
    if n == 0 then 0 else ZerosUpTo(g, n - 1) + ZerosIn(g[n - 1])
  }

  /** The number of empty cells of the grid, at most 81. */
  function ZeroCount(g: Grid): (z: nat)
    ensures z <= 81
  {
    ZerosUpTo(g, 9)
  }

  /** Filling an empty entry of a row removes exactly one zero. */
  lemma {:induction false} ZerosInFill(s: seq<int>, k: int, v: int)
    requires 0 <= k < |s| && s[k] == 0 && v != 0
    ensures ZerosIn(s[k := v]) == ZerosIn(s) - 1
  {
    var t := s[k := v];
    var last := |s| - 1;
    if k == last {
      assert t[..last] == s[..last];
    } else {
      assert t[..last] == s[..last][k := v];
      ZerosInFill(s[..last], k, v);
    }
  }

  lemma {:induction false} ZerosUpToFill(g: Grid, r: int, c: int, v: int, n: int)
    requires 0 <= r < 9 && 0 <= c < 9 && g[r][c] == 0 && v != 0
    requires 0 <= n <= 9
    ensures ZerosUpTo(WithCell(g, r, c, v), n) == ZerosUpTo(g, n) - (if r < n then 1 else 0)
  {
    if n > 0 {
      ZerosUpToFill(g, r, c, v, n - 1);
      var h := WithCell(g, r, c, v);
      if n - 1 == r {
        assert h[r] == g[r][c := v];
        ZerosInFill(g[r], c, v);
      } else {
        assert h[n - 1] == g[n - 1];
      }
    }
  }

  /** Writing a non-zero value into an empty cell lowers the number of
      empty cells by one: the measure that makes the fill loop stop. */
  lemma FillLowersZeroCount(g: Grid, r: int, c: int, v: int)
    requires 0 <= r < 9 && 0 <= c < 9 && g[r][c] == 0 && v != 0
    ensures ZeroCount(WithCell(g, r, c, v)) == ZeroCount(g) - 1
  {
    ZerosUpToFill(g, r, c, v, 9);
  }

  /** No other cell sharing a unit with (r, c) holds the value of (r, c). */
  predicate ConflictFreeAt(g: Grid, r: int, c: int)
    requires 0 <= r < 9 && 0 <= c < 9
  {
    forall i, j :: 0 <= i < 9 && 0 <= j < 9 && (i != r || j != c) && SharesUnit(r, c, i, j) ==>
      g[i][j] != g[r][c]
  }

  /** `after` arises from `before` by filling empty cells soundly: every
      non-zero cell is kept, and every cell that was empty is either still
      empty or holds a digit that no cell sharing a unit with it holds. */
  predicate FilledSoundly(before: Grid, after: Grid) {
    forall i, j :: 0 <= i < 9 && 0 <= j < 9 ==>
      (before[i][j] != 0 ==> after[i][j] == before[i][j]) &&
      (before[i][j] == 0 && after[i][j] != 0 ==> 1 <= after[i][j] <= 9 && ConflictFreeAt(after, i, j))
  }

  /** Every empty cell has a number of pencil marks other than one: no
      obvious square is left (a cell with no mark at all stays empty). */
  predicate NoObviousSquare(g: Grid) {
    forall i, j :: 0 <= i < 9 && 0 <= j < 9 && g[i][j] == 0 ==> |PencilMarks(g, i, j)| != 1
  }

  /** No empty cell among the first n cells in row-major order has exactly
      one pencil mark. */
  predicate CheckedUpTo(g: Grid, n: int) {
    forall i, j :: 0 <= i < 9 && 0 <= j < 9 && 9 * i + j < n && g[i][j] == 0 ==> |PencilMarks(g, i, j)| != 1
  }

  lemma CheckedStep(g: Grid, i: int, j: int)
    requires 0 <= i < 9 && 0 <= j < 9
    requires CheckedUpTo(g, 9 * i + j)
    requires g[i][j] != 0 || |PencilMarks(g, i, j)| != 1
    ensures CheckedUpTo(g, 9 * i + j + 1)
  {
    forall a, b | 0 <= a < 9 && 0 <= b < 9 && 9 * a + b < 9 * i + j + 1 && g[a][b] == 0
      ensures |PencilMarks(g, a, b)| != 1
    {
      if 9 * a + b == 9 * i + j {
        assert a == i && b == j;
      }
    }
  }

  lemma CheckedAll(g: Grid)
    requires CheckedUpTo(g, 81)
    ensures NoObviousSquare(g)
  {
  }

  lemma FilledSoundlyReflexive(g: Grid)
    ensures FilledSoundly(g, g)
  {
  }

  /** Writing a pencil mark of an empty cell keeps a sound fill sound: the
      mark differs from every non-zero value sharing a unit with the cell,
      including those written earlier, and those keep differing from it. */
  lemma WritingPencilMarkIsSound(before: Grid, g: Grid, r: int, c: int, v: int)
    requires FilledSoundly(before, g)
    requires 0 <= r < 9 && 0 <= c < 9 && g[r][c] == 0
    requires v in PencilMarks(g, r, c)
    ensures FilledSoundly(before, WithCell(g, r, c, v))
  {
    PencilMarksAreCandidates(g, r, c);
    assert AbsentFromUnits(g, r, c, v);
    var h := WithCell(g, r, c, v);
    forall i, j | 0 <= i < 9 && 0 <= j < 9 && before[i][j] == 0 && h[i][j] != 0
      ensures 1 <= h[i][j] <= 9 && ConflictFreeAt(h, i, j)
    {
      if i == r && j == c {
        forall a, b | 0 <= a < 9 && 0 <= b < 9 && (a != r || b != c) && SharesUnit(r, c, a, b)
          ensures h[a][b] != v
        {
          assert g[a][b] != v;
        }
      } else {
        assert g[i][j] == h[i][j];
        assert ConflictFreeAt(g, i, j);
        forall a, b | 0 <= a < 9 && 0 <= b < 9 && (a != i || b != j) && SharesUnit(i, j, a, b)
          ensures h[a][b] != h[i][j]
        {
          if a == r && b == c {
            assert SharesUnit(r, c, i, j);
            assert g[i][j] != v;
          } else {
            assert g[a][b] != g[i][j];
          }
        }
      }
    }
  }

  /** A one-element set holds nothing but its member. */
  lemma SingletonMember(s: set<int>, v: int)
    requires |s| == 1 && v in s
    ensures s == {v}
  {
    assert |s - {v}| == 0;
  }

  /** `pencil_marks.pop()` on a cell with a single pencil mark: that mark. */
  function OnlyMark(s: set<int>): (v: int)
    requires s <= Digits && |s| == 1
    ensures s == {v} && 1 <= v <= 9
  {
    var list := AscendingList(s);
    assert list[0] in list;
    SingletonMember(s, list[0]);
    list[0]
  }

  /** Where a sweep of fill_obvious_squares stands: the grid so far and
      whether the sweep has written a square (`squares_filled`). */
  datatype Sweep = Sweep(grid: Grid, filled: bool)

  /** The visit of cell (i, j): an empty cell with exactly one pencil mark,
      against the grid as it stands, receives that mark. */
  function Visit(s: Sweep, i: int, j: int): Sweep
    requires 0 <= i < 9 && 0 <= j < 9
  {
    var marks := PencilMarks(s.grid, i, j);
    if s.grid[i][j] == 0 && |marks| == 1 then Sweep(WithCell(s.grid, i, j, OnlyMark(marks)), true)
    else s
  }

  /** Visiting an empty cell whose only pencil mark is v writes v. */
  lemma VisitWrites(s: Sweep, i: int, j: int, v: int)
    requires 0 <= i < 9 && 0 <= j < 9
    requires s.grid[i][j] == 0 && PencilMarks(s.grid, i, j) == {v}
    ensures Visit(s, i, j) == Sweep(WithCell(s.grid, i, j, v), true)
  {
    assert OnlyMark(PencilMarks(s.grid, i, j)) == v;
  }

  /** Row i of a sweep, after its first j cells, continuing from s (the
      inner for-loop). */
  function RowUpTo(s: Sweep, i: int, j: int): Sweep
    requires 0 <= i < 9 && 0 <= j <= 9
  {
    if j == 0 then s else Visit(RowUpTo(s, i, j - 1), i, j - 1)
  }

  /** A sweep starting from g, after its first i rows (the outer for-loop);
      `squares_filled` starts out false. */
  function SweepRows(g: Grid, i: int): Sweep
    requires 0 <= i <= 9
  {
    if i == 0 then Sweep(g, false) else RowUpTo(SweepRows(g, i - 1), i - 1, 9)
  }

  /** What a sweep from g has done by the time it has visited the first n
      cells in row-major order and now stands at s: it never added an empty
      cell; if it wrote a square it has fewer empty cells than g; if not,
      the grid is still g and none of those n cells was an obvious square. */
  predicate Progressed(g: Grid, s: Sweep, n: int) {
    && ZeroCount(s.grid) <= ZeroCount(g)
    && (s.filled ==> ZeroCount(s.grid) < ZeroCount(g))
    && (!s.filled ==> s.grid == g && CheckedUpTo(g, n))
  }

  /** Visiting one more cell keeps the account of what the sweep did. */
  lemma VisitProgress(g: Grid, s: Sweep, i: int, j: int)
    requires 0 <= i < 9 && 0 <= j < 9
    requires Progressed(g, s, 9 * i + j)
    ensures Progressed(g, Visit(s, i, j), 9 * i + j + 1)
  {
    var marks := PencilMarks(s.grid, i, j);
    if s.grid[i][j] == 0 && |marks| == 1 {
      FillLowersZeroCount(s.grid, i, j, OnlyMark(marks));
    } else if !s.filled {
      CheckedStep(g, i, j);
    }
  }

  lemma {:induction false} RowProgress(g: Grid, s: Sweep, i: int, j: int)
    requires 0 <= i < 9 && 0 <= j <= 9
    requires Progressed(g, s, 9 * i)
    ensures Progressed(g, RowUpTo(s, i, j), 9 * i + j)
  {
    if j > 0 {
      RowProgress(g, s, i, j - 1);
      VisitProgress(g, RowUpTo(s, i, j - 1), i, j - 1);
    }
  }

  /** A sweep never adds an empty cell, and a sweep that wrote a square has
      fewer empty cells than it started with; a sweep that wrote nothing
      left the grid as it was, having found no obvious square among the
      rows it visited. */
  lemma {:induction false} SweepProgress(g: Grid, i: int)
    requires 0 <= i <= 9
    ensures ZeroCount(SweepRows(g, i).grid) <= ZeroCount(g)
    ensures SweepRows(g, i).filled ==> ZeroCount(SweepRows(g, i).grid) < ZeroCount(g)
    ensures !SweepRows(g, i).filled ==> SweepRows(g, i).grid == g && CheckedUpTo(g, 9 * i)
  {
    if i > 0 {
      SweepProgress(g, i - 1);
      RowProgress(g, SweepRows(g, i - 1), i - 1, 9);
    }
  }

  lemma {:induction false} RowSound(before: Grid, s: Sweep, i: int, j: int)
    requires 0 <= i < 9 && 0 <= j <= 9
    requires FilledSoundly(before, s.grid)
    ensures FilledSoundly(before, RowUpTo(s, i, j).grid)
  {
    if j > 0 {
      RowSound(before, s, i, j - 1);
      var prev := RowUpTo(s, i, j - 1);
      var marks := PencilMarks(prev.grid, i, j - 1);
      if prev.grid[i][j - 1] == 0 && |marks| == 1 {
        WritingPencilMarkIsSound(before, prev.grid, i, j - 1, OnlyMark(marks));
      }
    }
  }

  /** A sweep keeps a sound fill sound: each square it writes is the single
      pencil mark of an empty cell. */
  lemma {:induction false} SweepSound(before: Grid, g: Grid, i: int)
    requires 0 <= i <= 9
    requires FilledSoundly(before, g)
    ensures FilledSoundly(before, SweepRows(g, i).grid)
  {
    if i > 0 {
      SweepSound(before, g, i - 1);
      RowSound(before, SweepRows(g, i - 1), i - 1, 9);
    }
  }

  lemma {:induction false} RowIdle(g: Grid, i: int, j: int)
    requires 0 <= i < 9 && 0 <= j <= 9
    requires NoObviousSquare(g)
    ensures RowUpTo(Sweep(g, false), i, j) == Sweep(g, false)
  {
    if j > 0 {
      RowIdle(g, i, j - 1);
    }
  }

  /** On a grid without an obvious square a sweep writes nothing. */
  lemma {:induction false} SweepIdle(g: Grid, i: int)
    requires 0 <= i <= 9
    requires NoObviousSquare(g)
    ensures SweepRows(g, i) == Sweep(g, false)
  {
    if i > 0 {
      SweepIdle(g, i - 1);
      RowIdle(g, i - 1, 9);
    }
  }

  /** fill_obvious_squares on a grid value: sweep, and sweep again from the
      result for as long as a sweep writes a square. */
  function Propagate(g: Grid): Grid
    decreases ZeroCount(g)
  {
    var s := SweepRows(g, 9);
    if s.filled then
      SweepProgress(g, 9);
      Propagate(s.grid)
    else g
  }

  /** The number of sweeps Propagate makes, the last of which writes
      nothing. */
  function Sweeps(g: Grid): nat
    decreases ZeroCount(g)
  {
    var s := SweepRows(g, 9);
    if s.filled then
      SweepProgress(g, 9);
      1 + Sweeps(s.grid)
    else 1
  }

  lemma {:induction false} PropagateSoundFrom(before: Grid, g: Grid)
    requires FilledSoundly(before, g)
    ensures FilledSoundly(before, Propagate(g))
    decreases ZeroCount(g)
  {
    var s := SweepRows(g, 9);
    if s.filled {
      SweepProgress(g, 9);
      SweepSound(before, g, 9);
      PropagateSoundFrom(before, s.grid);
    }
  }

  /** fill_obvious_squares only fills empty cells, and each with a digit no
      cell sharing a unit with it holds. */
  lemma PropagateIsSound(g: Grid)
    ensures FilledSoundly(g, Propagate(g))
  {
    FilledSoundlyReflexive(g);
    PropagateSoundFrom(g, g);
  }

  /** When fill_obvious_squares stops, no empty cell has exactly one pencil
      mark, and it never adds an empty cell. */
  lemma {:induction false} PropagateLeavesNoObviousSquare(g: Grid)
    ensures NoObviousSquare(Propagate(g))
    ensures ZeroCount(Propagate(g)) <= ZeroCount(g)
    decreases ZeroCount(g)
  {
    var s := SweepRows(g, 9);
    SweepProgress(g, 9);
    if s.filled {
      PropagateLeavesNoObviousSquare(s.grid);
    } else {
      CheckedAll(g);
    }
  }

  /** The sweeps stop after at most one more than the number of empty
      cells, so after at most 82. */
  lemma {:induction false} SweepsBound(g: Grid)
    ensures 1 <= Sweeps(g) <= ZeroCount(g) + 1 <= 82
    decreases ZeroCount(g)
  {
    var s := SweepRows(g, 9);
    SweepProgress(g, 9);
    if s.filled {
      SweepsBound(s.grid);
    }
  }

  /** fill_obvious_squares leaves a grid unchanged exactly when it has no
      obvious square; so running it a second time changes nothing. */
  lemma PropagateFixesFinishedGrids(g: Grid)
    ensures Propagate(g) == g <==> NoObviousSquare(g)
    ensures Propagate(Propagate(g)) == Propagate(g)
  {
    PropagateLeavesNoObviousSquare(g);
    var s := SweepRows(g, 9);
    SweepProgress(g, 9);
    if s.filled {
      PropagateLeavesNoObviousSquare(s.grid);
    }
    if NoObviousSquare(g) {
      SweepIdle(g, 9);
    }
    SweepIdle(Propagate(g), 9);
  }

  /** A cell with no pencil mark at all: it is empty, and every digit is
      held by some cell sharing a unit with it. */
  predicate DeadCell(g: Grid, r: int, c: int)
    requires 0 <= r < 9 && 0 <= c < 9
  {
    g[r][c] == 0 && PencilMarks(g, r, c) == {}
  }

  /** Keeping every non-zero cell of g can only take pencil marks away. */
  lemma MarksShrink(g: Grid, h: Grid, r: int, c: int)
    requires 0 <= r < 9 && 0 <= c < 9
    requires forall i, j :: 0 <= i < 9 && 0 <= j < 9 && g[i][j] != 0 ==> h[i][j] == g[i][j]
    ensures PencilMarks(h, r, c) <= PencilMarks(g, r, c)
  {
    PencilMarksAreCandidates(g, r, c);
    PencilMarksAreCandidates(h, r, c);
    forall v | v in PencilMarks(h, r, c) ensures v in PencilMarks(g, r, c) {
      forall i, j | 0 <= i < 9 && 0 <= j < 9 && SharesUnit(r, c, i, j) ensures g[i][j] != v {
        if g[i][j] != 0 {
          assert h[i][j] != v;
        }
      }
    }
  }

  /** Visiting any cell leaves a dead cell dead: the dead cell itself has no
      single mark to write, and a write elsewhere only takes marks away. */
  lemma VisitKeepsDeadCell(s: Sweep, i: int, j: int, r: int, c: int)
    requires 0 <= i < 9 && 0 <= j < 9 && 0 <= r < 9 && 0 <= c < 9
    requires DeadCell(s.grid, r, c)
    ensures DeadCell(Visit(s, i, j).grid, r, c)
  {
    var marks := PencilMarks(s.grid, i, j);
    if s.grid[i][j] == 0 && |marks| == 1 {
      MarksShrink(s.grid, WithCell(s.grid, i, j, OnlyMark(marks)), r, c);
    }
  }

  lemma {:induction false} RowKeepsDeadCell(s: Sweep, i: int, j: int, r: int, c: int)
    requires 0 <= i < 9 && 0 <= j <= 9 && 0 <= r < 9 && 0 <= c < 9
    requires DeadCell(s.grid, r, c)
    ensures DeadCell(RowUpTo(s, i, j).grid, r, c)
  {
    if j > 0 {
      RowKeepsDeadCell(s, i, j - 1, r, c);
      VisitKeepsDeadCell(RowUpTo(s, i, j - 1), i, j - 1, r, c);
    }
  }

  lemma {:induction false} SweepKeepsDeadCell(g: Grid, i: int, r: int, c: int)
    requires 0 <= i <= 9 && 0 <= r < 9 && 0 <= c < 9
    requires DeadCell(g, r, c)
    ensures DeadCell(SweepRows(g, i).grid, r, c)
  {
    if i > 0 {
      SweepKeepsDeadCell(g, i - 1, r, c);
      RowKeepsDeadCell(SweepRows(g, i - 1), i - 1, 9, r, c);
    }
  }

  /** fill_obvious_squares never fills a cell that has no pencil mark: the
      cell stays 0 and keeps having no mark, and the loop ends without
      noticing that the puzzle has no solution. */
  lemma {:induction false} DeadCellStaysEmpty(g: Grid, r: int, c: int)
    requires 0 <= r < 9 && 0 <= c < 9
    requires g[r][c] == 0 && PencilMarks(g, r, c) == {}
    ensures Propagate(g)[r][c] == 0 && PencilMarks(Propagate(g), r, c) == {}
    decreases ZeroCount(g)
  {
    var s := SweepRows(g, 9);
    SweepKeepsDeadCell(g, 9, r, c);
    if s.filled {
      SweepProgress(g, 9);
      DeadCellStaysEmpty(s.grid, r, c);
    }
  }

  /** On a puzzle whose givens are already free of conflicts, a sound fill
      leaves every non-zero cell conflict-free. */
  lemma SoundFillOfConsistentPuzzle(before: Grid, after: Grid)
    requires FilledSoundly(before, after)
    requires forall i, j :: 0 <= i < 9 && 0 <= j < 9 && before[i][j] != 0 ==> ConflictFreeAt(before, i, j)
    ensures forall i, j :: 0 <= i < 9 && 0 <= j < 9 && after[i][j] != 0 ==> ConflictFreeAt(after, i, j)
  {
    forall i, j | 0 <= i < 9 && 0 <= j < 9 && after[i][j] != 0 ensures ConflictFreeAt(after, i, j) {
      if before[i][j] != 0 {
        forall a, b | 0 <= a < 9 && 0 <= b < 9 && (a != i || b != j) && SharesUnit(i, j, a, b)
          ensures after[a][b] != after[i][j]
        {
          if before[a][b] != 0 {
            assert before[a][b] != before[i][j];
          } else if after[a][b] != 0 {
            assert ConflictFreeAt(after, a, b);
            assert SharesUnit(a, b, i, j);
          }
        }
      }
    }
  }
}
