/** The grid logic of main.py's `SudokuUI`: pencil marks and the in-place
    filling of obvious squares, without the widgets. */
module NakedSingles {
  import opened SudokuGrid
  import opened PencilMarking

  /** The part of the UI object the solver logic uses: `self.grid`, a 9x9
      grid of integers (0 for an empty cell) updated in place. */
  class SudokuUI {
    const grid: array2<int>

    predicate Valid() {
      grid.Length0 == 9 && grid.Length1 == 9
    }

    /** The current contents of the grid as a value. */
    function Snapshot(): (g: Grid)
      requires Valid()
      reads grid
    {
      seq(9, i requires 0 <= i < 9 reads grid => seq(9, j requires 0 <= j < 9 reads grid => grid[i, j]))
    }

    /** Cell (i, j) of the snapshot is grid[i, j]. */
    lemma SnapshotCell(i: int, j: int)
      requires Valid() && 0 <= i < 9 && 0 <= j < 9
      ensures Snapshot()[i][j] == grid[i, j]
    {
    }

    /** A UI object over the given puzzle (what `load_grid` reads from its
        file). */
    constructor (initial: Grid)
      ensures Valid() && Snapshot() == initial
      ensures fresh(grid)
    {
      grid := new int[9, 9]((i, j) requires 0 <= i < 9 && 0 <= j < 9 => initial[i][j]);
      new;
      assert forall i :: 0 <= i < 9 ==> Snapshot()[i] == initial[i];
    }

    /** calculate_pencil_marks: start from {1, ..., 9} and discard every
        non-zero value of the row, the column and the 3x3 box of (row, col). */
    method CalculatePencilMarks(row: int, col: int) returns (pencilMarks: set<int>)
      requires Valid() && 0 <= row < 9 && 0 <= col < 9
      ensures pencilMarks == PencilMarks(Snapshot(), row, col)
    {
      ghost var g := Snapshot();
      pencilMarks := Digits;
      for j := 0 to 9
        invariant pencilMarks == Digits - NonZeroValues(g[row][..j])
      {
        var value := grid[row, j];
        SnapshotCell(row, j);
        DiscardStep(pencilMarks, Digits, g[row], j);
        if value != 0 {
          pencilMarks := pencilMarks - {value};
        }
      }
      assert g[row][..9] == g[row];
      ghost var afterRow := pencilMarks;
      assert afterRow == Digits - NonZeroValues(g[row]);
      ghost var column := Column(g, col);
      for i := 0 to 9
        invariant pencilMarks == afterRow - NonZeroValues(column[..i])
      {
        var value := grid[i, col];
        SnapshotCell(i, col);
        DiscardStep(pencilMarks, afterRow, column, i);
        if value != 0 {
          pencilMarks := pencilMarks - {value};
        }
      }
      assert column[..9] == column;
      assert pencilMarks == afterRow - NonZeroValues(column);
      var boxRow := (row / 3) * 3;
      var boxCol := (col / 3) * 3;
      ghost var box := Box(g, BoxOf(row, col));
      ghost var lines := pencilMarks;
      ghost var k := 0;
      for i := boxRow to boxRow + 3
        invariant k == (i - boxRow) * 3
        invariant pencilMarks == lines - NonZeroValues(box[..k])
      {
        for j := boxCol to boxCol + 3
          invariant k == (i - boxRow) * 3 + (j - boxCol)
          invariant pencilMarks == lines - NonZeroValues(box[..k])
        {
          BoxEntry(g, row, col, i, j, k);
          var value := grid[i, j];
          SnapshotCell(i, j);
          DiscardStep(pencilMarks, lines, box, k);
          if value != 0 {
            pencilMarks := pencilMarks - {value};
          }
          k := k + 1;
        }
      }
      assert box[..k] == box;
      assert pencilMarks == lines - NonZeroValues(box);
      assert g == Snapshot();
    }

    /** `self.grid[i][j] = value`. */
    method SetCell(i: int, j: int, value: int)
      requires Valid() && 0 <= i < 9 && 0 <= j < 9
      modifies grid
      ensures Snapshot() == WithCell(old(Snapshot()), i, j, value)
    {
      ghost var before := Snapshot();
      grid[i, j] := value;
      ghost var after := Snapshot();
      forall a | 0 <= a < 9 ensures after[a] == WithCell(before, i, j, value)[a] {
        assert forall b :: 0 <= b < 9 ==> after[a][b] == WithCell(before, i, j, value)[a][b];
      }
    }

    /** The body of the sweep for cell (i, j): if the cell is empty and has
        exactly one pencil mark, write that mark (`pencil_marks.pop()`) and
        set the flag. */
    method VisitCell(i: int, j: int, squaresFilled: bool) returns (filled: bool)
      requires Valid() && 0 <= i < 9 && 0 <= j < 9
      modifies grid
      ensures Sweep(Snapshot(), filled) == Visit(Sweep(old(Snapshot()), squaresFilled), i, j)
    {
      ghost var visited := Sweep(Snapshot(), squaresFilled);
      SnapshotCell(i, j);
      filled := squaresFilled;
      if grid[i, j] == 0 {
        var pencilMarks := CalculatePencilMarks(i, j);
        if |pencilMarks| == 1 {
          var value :| value in pencilMarks;
          SingletonMember(pencilMarks, value);
          VisitWrites(visited, i, j, value);
          SetCell(i, j, value);
          filled := true;
        }
      }
    }

    /** The inner for-loop of a sweep: visit the cells of row i in order,
        continuing a sweep that stands at `from`. */
    method SweepRow(ghost from: Sweep, i: int, squaresFilled: bool) returns (filled: bool)
      requires Valid() && 0 <= i < 9
      requires from == Sweep(Snapshot(), squaresFilled)
      modifies grid
      ensures Sweep(Snapshot(), filled) == RowUpTo(from, i, 9)
    {
      filled := squaresFilled;
      for j := 0 to 9
        invariant Sweep(Snapshot(), filled) == RowUpTo(from, i, j)
      {
        filled := VisitCell(i, j, filled);
      }
    }

    /** One sweep of fill_obvious_squares (its two for-loops): visit the
        cells in row-major order; report whether anything was written
        (`squares_filled`). */
    method SweepGrid() returns (squaresFilled: bool)
      requires Valid()
      modifies grid
      ensures Sweep(Snapshot(), squaresFilled) == SweepRows(old(Snapshot()), 9)
    {
      ghost var start := Snapshot();
      squaresFilled := false;
      for i := 0 to 9
        invariant Sweep(Snapshot(), squaresFilled) == SweepRows(start, i)
      {
        squaresFilled := SweepRow(SweepRows(start, i), i, squaresFilled);
      }
    }

    /** fill_obvious_squares: sweep the grid, and sweep again until a whole
        sweep writes nothing. `passes` counts the sweeps. */
    method FillObviousSquares() returns (ghost passes: nat)
      requires Valid()
      modifies grid
      ensures Snapshot() == Propagate(old(Snapshot()))
      ensures passes == Sweeps(old(Snapshot()))
      ensures FilledSoundly(old(Snapshot()), Snapshot())
      ensures NoObviousSquare(Snapshot())
      ensures passes <= ZeroCount(old(Snapshot())) + 1 <= 82
    {
      ghost var initial := Snapshot();
      passes := 0;
      while true
        invariant Propagate(Snapshot()) == Propagate(initial)
        invariant passes + Sweeps(Snapshot()) == Sweeps(initial)
        decreases ZeroCount(Snapshot())
      {
        passes := passes + 1;
        ghost var passStart := Snapshot();
        var squaresFilled := SweepGrid();
        SweepProgress(passStart, 9);
        if !squaresFilled {
          assert Snapshot() == passStart;
          assert Propagate(passStart) == passStart;
          break;
        }
      }
      PropagateIsSound(initial);
      PropagateLeavesNoObviousSquare(initial);
      SweepsBound(initial);
    }
  }
}
