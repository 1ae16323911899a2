/** `generate_random_solution` and `initialize_population` of
    genetic_algorithm.py, proved against the functions of RandomFill. */
module Initialization {
  import opened SudokuGrid
  import opened ValidNumbers
  import opened RandomFill
  import opened Generation

  /** generate_random_solution: start from an all-zero grid and visit the
      cells in row-major order, copying givens and drawing from the
      candidates of open cells. */
  method GenerateRandomSolution(grid: Grid, draws: seq<seq<nat>>) returns (solution: Grid)
    requires IsDrawGrid(draws)
    ensures solution == RandomSolution(grid, draws)
  {
    solution := EmptyGrid();
    ghost var p := 0;
    for i := 0 to 9
      invariant p == 9 * i && solution == FillUpTo(grid, draws, p)
    {
      for j := 0 to 9
        invariant p == 9 * i + j && solution == FillUpTo(grid, draws, p)
      {
        FillStep(grid, draws, p, i, j);
        if grid[i][j] != 0 {
          solution := WithCell(solution, i, j, grid[i][j]);
        } else {
          var validNumbers := GetValidNumbers(solution, i, j);
          assert CellValue(grid, draws, solution, i, j) ==
            if |validNumbers| > 0 then validNumbers[draws[i][j] % |validNumbers|] else 0;
          if |validNumbers| > 0 {
            solution := WithCell(solution, i, j, validNumbers[draws[i][j] % |validNumbers|]);
          } else {
            solution := WithCell(solution, i, j, 0);
          }
        }
        p := p + 1;
      }
    }
  }

  /** initialize_population: `cfg.populationSize` independent random fills
      (none when the size is zero or negative, as with Python's range). */
  method InitializePopulation(cfg: Config, grid: Grid, draws: seq<seq<seq<nat>>>)
    returns (population: seq<Grid>)
    requires |draws| == Max0(cfg.populationSize)
    requires forall k :: 0 <= k < |draws| ==> IsDrawGrid(draws[k])
    ensures |population| == |draws|
    ensures forall k :: 0 <= k < |population| ==> population[k] == RandomSolution(grid, draws[k])
  {
    population := [];
    for k := 0 to |draws|
      invariant |population| == k
      invariant forall m :: 0 <= m < k ==> population[m] == RandomSolution(grid, draws[m])
    {
      var solution := GenerateRandomSolution(grid, draws[k]);
      population := population + [solution];
    }
  }

}
