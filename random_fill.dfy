/** What the constraint-aware random initial fill of genetic_algorithm.py
    computes, as functions of the puzzle and the random draws, and what it
    guarantees. The random choice made for each open cell is an input:
    draws[i][j] stands for the position random.choice lands on in the
    candidate list of cell (i, j). */
module RandomFill {
  import opened SudokuGrid
  import opened ValidNumbers

  /** One draw per cell, nine rows of nine. */
  predicate IsDrawGrid(draws: seq<seq<nat>>) {
    |draws| == 9 && forall i :: 0 <= i < 9 ==> |draws[i]| == 9
  }

  /** What the source writes into cell (r, c) when it reaches it with the
      partially built grid `partial`: the given if there is one, otherwise
      the drawn candidate, or 0 when no candidate is left. */
  function CellValue(grid: Grid, draws: seq<seq<nat>>, partial: Grid, r: int, c: int): int
    requires IsDrawGrid(draws) && 0 <= r < 9 && 0 <= c < 9
  {
    if grid[r][c] != 0 then grid[r][c]
    else
      var valid := AscendingList(Candidates(partial, r, c));
      if |valid| > 0 then valid[draws[r][c] % |valid|] else 0
  }

  /** The solution being built, after the first n cells in row-major order. */
  function FillUpTo(grid: Grid, draws: seq<seq<nat>>, n: int): Grid
    requires IsDrawGrid(draws) && 0 <= n <= 81
  {
    if n == 0 then EmptyGrid()
    else
      var prev := FillUpTo(grid, draws, n - 1);
      CellIndex(n - 1, 0, 0);
      WithCell(prev, CellRow(n - 1), CellCol(n - 1), CellValue(grid, draws, prev, CellRow(n - 1), CellCol(n - 1)))
  }

  /** Visiting cell (i, j), the cell with row-major index p, writes
      CellValue into it. */
  lemma FillStep(grid: Grid, draws: seq<seq<nat>>, p: int, i: int, j: int)
    requires IsDrawGrid(draws) && 0 <= i < 9 && 0 <= j < 9 && p == 9 * i + j
    ensures var prev := FillUpTo(grid, draws, p);
            FillUpTo(grid, draws, p + 1) == WithCell(prev, i, j, CellValue(grid, draws, prev, i, j))
  {
    CellIndex(p, i, j);
  }

  /** The grid generate_random_solution returns for these draws. */
  function RandomSolution(grid: Grid, draws: seq<seq<nat>>): Grid
    requires IsDrawGrid(draws)
  {
    FillUpTo(grid, draws, 81)
  }

  /** Visiting cell n - 1 leaves every other cell as it was. */
  lemma FillKeepsOthers(grid: Grid, draws: seq<seq<nat>>, n: int, r: int, c: int)
    requires IsDrawGrid(draws) && 0 < n <= 81 && 0 <= r < 9 && 0 <= c < 9
    requires 9 * r + c != n - 1
    ensures FillUpTo(grid, draws, n)[r][c] == FillUpTo(grid, draws, n - 1)[r][c]
  {
    CellIndex(n - 1, r, c);
  }

  /** After n cells, a visited cell holds the value written when it was
      reached and every other cell is still 0. */
  lemma {:induction false} FillUpToCell(grid: Grid, draws: seq<seq<nat>>, n: int, r: int, c: int)
    requires IsDrawGrid(draws) && 0 <= n <= 81 && 0 <= r < 9 && 0 <= c < 9
    ensures FillUpTo(grid, draws, n)[r][c] ==
      if 9 * r + c < n then FillUpTo(grid, draws, 9 * r + c + 1)[r][c] else 0
  {
    if n == 0 {
      assert FillUpTo(grid, draws, n) == EmptyGrid();
    } else if n - 1 != 9 * r + c {
      FillKeepsOthers(grid, draws, n, r, c);
      FillUpToCell(grid, draws, n - 1, r, c);
    } else {
      assert FillUpTo(grid, draws, 9 * r + c + 1) == FillUpTo(grid, draws, n);
    }
  }

  /** The final value of cell (r, c) is the one written when it was
      reached. */
  lemma FinalCell(grid: Grid, draws: seq<seq<nat>>, r: int, c: int)
    requires IsDrawGrid(draws) && 0 <= r < 9 && 0 <= c < 9
    ensures RandomSolution(grid, draws)[r][c] ==
      CellValue(grid, draws, FillUpTo(grid, draws, 9 * r + c), r, c)
  {
    FillUpToCell(grid, draws, 81, r, c);
    FillStep(grid, draws, 9 * r + c, r, c);
  }

  /** The partially built grid the source consults at cell p holds the
      final values of the cells before p and 0 everywhere else. */
  lemma PartialGrid(grid: Grid, draws: seq<seq<nat>>, p: int)
    requires IsDrawGrid(draws) && 0 <= p <= 81
    ensures forall i, j :: 0 <= i < 9 && 0 <= j < 9 ==>
      FillUpTo(grid, draws, p)[i][j] == if 9 * i + j < p then RandomSolution(grid, draws)[i][j] else 0
  {
    forall i, j | 0 <= i < 9 && 0 <= j < 9
      ensures FillUpTo(grid, draws, p)[i][j] == if 9 * i + j < p then RandomSolution(grid, draws)[i][j] else 0
    {
      FillUpToCell(grid, draws, p, i, j);
      FillUpToCell(grid, draws, 81, i, j);
    }
  }

  /** Every non-zero given is copied unchanged. */
  lemma GivensCopied(grid: Grid, draws: seq<seq<nat>>)
    requires IsDrawGrid(draws)
    ensures forall r, c :: 0 <= r < 9 && 0 <= c < 9 && grid[r][c] != 0 ==>
      RandomSolution(grid, draws)[r][c] == grid[r][c]
  {
    forall r, c | 0 <= r < 9 && 0 <= c < 9 && grid[r][c] != 0
      ensures RandomSolution(grid, draws)[r][c] == grid[r][c]
    {
      FinalCell(grid, draws, r, c);
    }
  }

  /** At an open cell the value written is a candidate against the grid
      consulted, or 0 when there is none. */
  lemma DrawnValueIsCandidate(grid: Grid, draws: seq<seq<nat>>, partial: Grid, r: int, c: int)
    requires IsDrawGrid(draws) && 0 <= r < 9 && 0 <= c < 9
    requires grid[r][c] == 0
    ensures var v := CellValue(grid, draws, partial, r, c);
            (Candidates(partial, r, c) == {} && v == 0) || v in Candidates(partial, r, c)
  {
    var valid := AscendingList(Candidates(partial, r, c));
    if |valid| > 0 {
      assert valid[draws[r][c] % |valid|] in valid;
    }
  }

  /** An open cell (r, c) receives a value that, at the moment it is filled,
      is a candidate against the partially built grid; when no candidate is
      left it receives 0. In particular a non-zero value written there
      differs from every earlier cell that shares a unit with it. */
  lemma OpenCellFill(grid: Grid, draws: seq<seq<nat>>, r: int, c: int)
    requires IsDrawGrid(draws) && 0 <= r < 9 && 0 <= c < 9
    requires grid[r][c] == 0
    ensures var partial := FillUpTo(grid, draws, 9 * r + c);
            var v := RandomSolution(grid, draws)[r][c];
            (Candidates(partial, r, c) == {} && v == 0) || v in Candidates(partial, r, c)
    ensures var v := RandomSolution(grid, draws)[r][c];
            v != 0 ==> (1 <= v <= 9 &&
              forall i, j :: 0 <= i < 9 && 0 <= j < 9 && 9 * i + j < 9 * r + c && SharesUnit(r, c, i, j) ==>
                RandomSolution(grid, draws)[i][j] != v)
  {
    FinalCell(grid, draws, r, c);
    PartialGrid(grid, draws, 9 * r + c);
    OpenCellValue(grid, draws, FillUpTo(grid, draws, 9 * r + c), RandomSolution(grid, draws), r, c);
  }

  /** OpenCellFill for any grid `sol` whose cell (r, c) holds the value
      written against `partial`, where `partial` agrees with `sol` before
      (r, c) and is 0 from (r, c) on. */
  lemma OpenCellValue(grid: Grid, draws: seq<seq<nat>>, partial: Grid, sol: Grid, r: int, c: int)
    requires IsDrawGrid(draws) && 0 <= r < 9 && 0 <= c < 9
    requires grid[r][c] == 0
    requires sol[r][c] == CellValue(grid, draws, partial, r, c)
    requires forall i, j :: 0 <= i < 9 && 0 <= j < 9 ==>
      partial[i][j] == if 9 * i + j < 9 * r + c then sol[i][j] else 0
    ensures var v := sol[r][c];
            (Candidates(partial, r, c) == {} && v == 0) || v in Candidates(partial, r, c)
    ensures var v := sol[r][c];
            v != 0 ==> (1 <= v <= 9 &&
              forall i, j :: 0 <= i < 9 && 0 <= j < 9 && 9 * i + j < 9 * r + c && SharesUnit(r, c, i, j) ==>
                sol[i][j] != v)
  {
    var v := sol[r][c];
    DrawnValueIsCandidate(grid, draws, partial, r, c);
    if v != 0 {
      CandidatesMeaning(partial, r, c);
      assert AbsentFromUnits(partial, r, c, v);
    }
  }

  /** Every individual of the initial population keeps the puzzle's givens. */
  lemma InitialPopulationKeepsGivens(grid: Grid, population: seq<Grid>, draws: seq<seq<seq<nat>>>)
    requires |population| == |draws|
    requires forall k :: 0 <= k < |draws| ==> IsDrawGrid(draws[k])
    requires forall k :: 0 <= k < |population| ==> population[k] == RandomSolution(grid, draws[k])
    ensures forall k, r, c :: 0 <= k < |population| && 0 <= r < 9 && 0 <= c < 9 && grid[r][c] != 0 ==>
      population[k][r][c] == grid[r][c]
  {
    forall k | 0 <= k < |population| {
      GivensCopied(grid, draws[k]);
    }
  }
}
