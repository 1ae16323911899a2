# Genetic Sudoku solver — a Dafny model

This project models the grid logic of a small Sudoku solver written in
Python. The solver has two parts:

- `GeneticAlgorithm` (genetic_algorithm.py) evolves a population of 9x9
  grids. It scores each grid by the number of distinct values in its rows,
  columns and boxes, and builds each new generation by random choice,
  tournament selection, row-wise crossover and per-cell mutation. The first
  population is a constraint-aware random fill of the puzzle.
- `SudokuUI` (main.py) adds naked-single propagation on the puzzle. Its
  pencil marks are the digits no peer holds. It writes every cell that has
  exactly one pencil mark, in place, until a whole sweep writes nothing.

Every random draw is an explicit input, so each operation becomes a
deterministic function of the grid and its draws. These draws are:

- the position `random.choice` lands on in a candidate list;
- whether `random.random() < mutation_rate` held for a cell, and the digit
  `random.randint(1, 9)` gave;
- the crossover point;
- the indices `random.choice` and `random.sample` return.

Their ranges are what the random functions guarantee. A 9x9 grid is the
subset type `SudokuGrid.Grid` of `seq<seq<int>>`, and 0 marks an empty cell.

Each imperative function of the source is a Dafny `method`, with its loops
and their invariants. Its `ensures` ties the result to a specification
function: `RandomSolution`, `Mutated`, `Spliced`, `BestSolution`,
`NextGeneration`, `Candidates`, `PencilMarks` or, for the sweeps of
`fill_obvious_squares`, `RowUpTo`, `SweepRows` and `Propagate`. Lemmas
then prove what the source promises about those functions. The UI's grid is
an `array2<int>` field of the class `NakedSingles.SudokuUI`, and its methods
update it in place.

Some behaviours of the code are worth stating plainly, since a reader might
expect otherwise:

- **Solved test.** `is_solved` tests fitness `== 0`. No grid has that
  fitness, so the test never holds; see Findings.
- **No candidate left.** An open cell with no candidate left gets 0 in the
  random fill.
- **Solved step result.** When a step finds a solution it returns that grid
  alone, not a population (`Generation.Outcome`).
- **Fitness range.** Fitness lies in [27, 243]. A fitness of 243 means every
  unit is free of repeats. It means every unit is a permutation of 1..9 only
  when every cell holds a digit, because 0 counts as an ordinary value.
- **No extra machinery.** There is no stagnation counter, no local search
  and no elitism.

Modules, one per file:

| file | module | what it covers |
|---|---|---|
| grid.dfy | `SudokuGrid` | grids, rows, columns, boxes, unit value sets |
| fitness.dfy | `FitnessEvaluation` | `evaluate_fitness`, `is_solved` |
| candidates.dfy | `ValidNumbers` | `get_valid_numbers` |
| random_fill.dfy | `RandomFill` | what the random initial fill computes |
| initialization.dfy | `Initialization` | `generate_random_solution`, `initialize_population` |
| operators.dfy | `Operators` | `mutate`, `crossover` |
| selection.dfy | `Selection` | `get_best_solution`, `tournament_selection`, `selection` |
| generation.dfy | `Generation` | one generation as a function of the draws |
| evolution.dfy | `Evolution` | `evolve_population`, loop by loop |
| pencil_marks.dfy | `PencilMarking` | pencil marks, empty-cell count, sound fills |
| sudoku_ui.dfy | `NakedSingles` | `calculate_pencil_marks`, `fill_obvious_squares` |

## Model

| member | source | states |
|---|---|---|
| FitnessEvaluation.EvaluateFitness | genetic_algorithm.py:88-100 | The result is `Fitness`: the sum, over unit index i, of the distinct values in row i, column i and box i. |
| FitnessEvaluation.ColumnValues | genetic_algorithm.py:93 | The source's column comprehension for index i is exactly the value set of column i. |
| FitnessEvaluation.BoxValues | genetic_algorithm.py:94-98 | The 3x3 rectangle starting at (i // 3 * 3, i % 3 * 3) holds exactly the values of box i. The nine indices therefore score the nine boxes. |
| FitnessEvaluation.UnitScoreBounds | genetic_algorithm.py:91-99 | Each unit index adds between 3 and 27. It adds 27 exactly when its row, column and box are each free of repeats. |
| FitnessEvaluation.FitnessBounds | genetic_algorithm.py:88-100 | Every 9x9 grid has fitness in [27, 243]. |
| FitnessEvaluation.FitnessMaximalIffDistinct | genetic_algorithm.py:88-100 | Fitness is 243 if and only if all 27 units hold nine pairwise-distinct entries. |
| FitnessEvaluation.FitnessMaximalIffSolution | genetic_algorithm.py:88-100 | On grids of digits 1..9, fitness is 243 if and only if every row, column and box is a permutation of 1..9. |
| FitnessEvaluation.IsSolvedNeverHolds | genetic_algorithm.py:65-67 | `is_solved` as written (fitness == 0) holds of no grid. A valid solution has fitness 243. |
| FitnessEvaluation.IsSolvedCorrectedIffValid | genetic_algorithm.py:65-67 | The intended test (fitness == 243) holds exactly when all units are repeat-free. On digit grids it holds exactly on valid solutions. |
| SudokuGrid.ValuesCardinality | genetic_algorithm.py:92-99 | A unit of n cells yields a value set of 1..n elements, and exactly n when its entries are pairwise distinct. |
| ValidNumbers.GetValidNumbers | genetic_algorithm.py:112-130 | The result lists exactly the set left after discarding, from {1..9}, the values of the row, the column and the box of (row, col). |
| ValidNumbers.CandidatesMeaning | genetic_algorithm.py:112-130 | A value is a candidate if and only if it is a digit 1..9 that no cell sharing a row, column or box with (r, c) holds. |
| ValidNumbers.AscendingList | genetic_algorithm.py:130 | `list(valid_numbers)` has exactly the members of the set, and is empty exactly when the set is. |
| Initialization.GenerateRandomSolution | genetic_algorithm.py:18-32 | The result is `RandomSolution`, the row-major fill. Each cell gets its given, the drawn candidate against the partly built grid, or 0. |
| Initialization.InitializePopulation | genetic_algorithm.py:11-16 | It returns `cfg.populationSize` random fills, one per draw grid and in order, and none for a size of zero or less. |
| RandomFill.FinalCell | genetic_algorithm.py:20-31 | A cell's final value is the one written when the row-major sweep reached it; nothing overwrites it later. |
| RandomFill.PartialGrid | genetic_algorithm.py:19-31 | The grid consulted at cell p holds the final values of the cells before p and 0 everywhere else. |
| RandomFill.GivensCopied | genetic_algorithm.py:22-23 | Every non-zero given is copied unchanged. |
| RandomFill.OpenCellFill | genetic_algorithm.py:24-31 | An open cell gets a candidate against the partial grid, or 0 when none is left. A non-zero value differs from every earlier cell that shares a unit with it. |
| RandomFill.InitialPopulationKeepsGivens | genetic_algorithm.py:11-16 | Every member of the initial population keeps all givens. |
| Operators.Mutate | genetic_algorithm.py:34-40 | The result is `Mutated`: each cell whose draw fired holds the drawn digit, and every other cell its old value. The input is unchanged. |
| Operators.MutatedCells | genetic_algorithm.py:34-40 | Each mutated cell is either unchanged or a digit 1..9. A cell whose draw did not fire is unchanged. |
| Operators.MutationWithoutFiringIsIdentity | genetic_algorithm.py:36-39 | When no draw fires (in particular at a rate of 0 or below), the output equals the input. |
| Operators.FullRateMutation | genetic_algorithm.py:38-39 | At a rate of 1 or more, every cell is overwritten, so the output does not depend on the input. |
| Operators.Crossover | genetic_algorithm.py:77-86 | The child is `Spliced`: parent1's rows before the cut, then parent2's rows. |
| Operators.SplicedRows | genetic_algorithm.py:81-85 | Row i of the child is parent1's row i when i < cut, and parent2's otherwise. Row 8 always comes from parent2, and a cut of 0 gives parent2. |
| Operators.SplicedKeepsAgreement | genetic_algorithm.py:81-85 | A cell on which both parents agree keeps that value in the child. Equal parents give that parent back. |
| Selection.FirstBestIndex | genetic_algorithm.py:102-110 | The index the running maximum settles on is None only for an empty population. Otherwise it is in range, no member is fitter, and every earlier member is strictly less fit. |
| Selection.FirstBestIndexIsFirstFittest | genetic_algorithm.py:102-110 | Index k is chosen if and only if it has maximal fitness and every earlier member is strictly less fit: ties go to the earliest. |
| Selection.BestSolutionIsFittest | genetic_algorithm.py:102-110 | A non-empty population's best is one of its members, and at least as fit as every member. |
| Selection.GetBestSolution | genetic_algorithm.py:102-110 | The loop returns `BestSolution`: None for an empty population, else the first member of maximal fitness. |
| Selection.TournamentSelection | genetic_algorithm.py:132-137 | The result is the best of the sampled members, taken in sample order. |
| Selection.TournamentWinner | genetic_algorithm.py:132-137 | A non-empty tournament is won by a sampled member that is at least as fit as every sampled member, and no fitter than the population's best. An empty tournament yields None. |
| Selection.FullTournamentIsFittest | genetic_algorithm.py:132-137 | A tournament that samples every member has the fitness of the population's best. |
| Selection.BinarySelection | genetic_algorithm.py:69-75 | The winner is one of the two drawn members, and at least as fit as both. The first wins only when strictly fitter. |
| Generation.Trunc | genetic_algorithm.py:44 | `int()` truncates toward zero: the result is the integer part, on both sides of 0. |
| Generation.NextGenerationSize | genetic_algorithm.py:44-57 | The new population has max(0, r) + max(0, n - r) members, where r is the truncated product. That is exactly n for a portion in [0, 1], and never 0 when n > 0. |
| Generation.DefaultSelectionCounts | genetic_algorithm.py:4-9 | With the default parameters, a population of 100 keeps 10 members at random and breeds 90 children. |
| Generation.KeptMember | genetic_algorithm.py:47-57 | Each member in the first positions is the mutation of the member `random.choice` picked. |
| Generation.BredMember | genetic_algorithm.py:50-57 | Each later member is the mutation of the crossover of two tournament winners. |
| Generation.OffspringRowsInherited | genetic_algorithm.py:50-54 | Every row of a bred child is the same row of some member of the old population. |
| Generation.RowsInheritedWithoutMutation | genetic_algorithm.py:42-57 | When no mutation fires, every row of every new member is the same row of an old member. |
| Generation.ConcludeNeverSolves | genetic_algorithm.py:59-63 | As written, a step always returns its new population. |
| Generation.ConcludeCorrectedFindsSolutions | genetic_algorithm.py:59-63 | With the intended test, a step returns a single grid exactly when some new member is repeat-free in all units, and the grid it returns is such a member. |
| Evolution.KeepRandom | genetic_algorithm.py:47-48 | The first loop returns the picked members, in order. |
| Evolution.BreedChildren | genetic_algorithm.py:50-54 | The second loop returns `Children`: one crossover of two tournament winners per breeding, in order. |
| Evolution.MutateAll | genetic_algorithm.py:56-57 | The third loop replaces every member by its mutation with its own draw. |
| Evolution.ConcludeStep | genetic_algorithm.py:59-63 | The end of the step returns `Solved(best)` if `is_solved` holds of the best new member, else the whole new population. |
| Evolution.EvolvePopulation | genetic_algorithm.py:42-63 | One step returns `Conclude(NextGeneration(...))`, the outcome of the three loops and the solved test. |
| PencilMarking.PencilMarksAreCandidates | main.py:114-134 | The pencil marks equal `get_valid_numbers`' candidates on every grid: exactly the digits no peer holds. |
| PencilMarking.FillLowersZeroCount | main.py:58-62 | Writing a non-zero value into an empty cell lowers the number of empty cells by one. |
| PencilMarking.WritingPencilMarkIsSound | main.py:58-62 | Writing a pencil mark into an empty cell keeps the fill sound: givens are kept and no written digit shares a unit with an equal value. |
| PencilMarking.SoundFillOfConsistentPuzzle | main.py:53-70 | On a puzzle whose givens are conflict-free, every non-zero cell after a sound fill is conflict-free. |
| PencilMarking.OnlyMark | main.py:61 | `pop()` on a set of one pencil mark yields its only member, a digit 1..9. |
| PencilMarking.VisitProgress | main.py:58-66 | Visiting a cell never adds an empty cell. A write lowers the empty-cell count, and a visit that writes nothing has checked one more cell for an obvious square. |
| PencilMarking.SweepProgress | main.py:55-66 | After its first i rows, a sweep has added no empty cell. If it wrote a square it has fewer empty cells than at its start. If not, the grid is unchanged and none of the first 9i cells was an obvious square. |
| PencilMarking.SweepSound | main.py:56-66 | A sweep keeps a sound fill sound: every square it writes holds a digit that no cell sharing a unit with it holds. |
| PencilMarking.SweepIdle | main.py:56-66 | On a grid with no obvious square, a sweep writes nothing and reports `squares_filled` false. |
| PencilMarking.PropagateIsSound | main.py:53-70 | Repeated sweeping keeps every given and fills each cell it writes with a digit that conflicts with no cell sharing a unit. |
| PencilMarking.PropagateLeavesNoObviousSquare | main.py:53-70 | When the sweeps stop, no empty cell has exactly one pencil mark, and no empty cell was added. |
| PencilMarking.SweepsBound | main.py:53-70 | The number of sweeps is between 1 and the number of empty cells plus one, so at most 82. |
| PencilMarking.PropagateFixesFinishedGrids | main.py:53-70 | Sweeping leaves a grid unchanged exactly when it has no obvious square, so a second run changes nothing. |
| PencilMarking.MarksShrink | main.py:114-134 | A grid that keeps every non-zero cell of another has, at every cell, a subset of that grid's pencil marks. |
| PencilMarking.VisitKeepsDeadCell | main.py:58-66 | Visiting any cell leaves an empty cell with no pencil mark empty and without a mark. |
| PencilMarking.DeadCellStaysEmpty | main.py:53-70 | An empty cell with no pencil mark is never filled: after the sweeps it is still 0 and still has no mark, and the loop does not notice the contradiction. |
| NakedSingles.SudokuUI.constructor | main.py:8-11 | The UI's grid holds the loaded puzzle. |
| NakedSingles.SudokuUI.CalculatePencilMarks | main.py:114-134 | The discarding loops return `PencilMarks` of the current grid: the digits 1..9 minus the non-zero values of the row, column and box. |
| NakedSingles.SudokuUI.SetCell | main.py:62 | Only cell (i, j) changes, and it becomes `value`. |
| NakedSingles.SudokuUI.VisitCell | main.py:58-66 | The grid and flag after visiting (i, j) are `Visit` of those before. An empty cell with exactly one pencil mark receives that mark and sets the flag; otherwise nothing changes. |
| NakedSingles.SudokuUI.SweepRow | main.py:57-66 | The inner loop leaves the grid and flag at `RowUpTo(from, i, 9)`: the cells of row i visited in order. |
| NakedSingles.SudokuUI.SweepGrid | main.py:55-66 | One pass of the two for-loops leaves the grid and `squares_filled` at `SweepRows(old grid, 9)`. |
| NakedSingles.SudokuUI.FillObviousSquares | main.py:53-70 | The final grid is `Propagate` of the initial one. It only fills empty cells, and only soundly, and it stops with no empty cell having exactly one pencil mark. It makes `Sweeps` passes, at most ZeroCount + 1 <= 82. |

## Left out

- The tkinter interface is not modelled: the window, the entry widgets, the
  buttons, `display_solution`, `run_after_no_changes`, `root.update` and the
  `__main__` block. It is presentation only.
- `time.sleep` in the fill loop is timing, not logic.
- `load_grid` is file input. The constructor takes the puzzle as a 9x9
  grid, and files with other shapes are not modelled.
- `solve_with_genetic_algorithm` is not modelled. This driver loop prints
  progress and calls `get_solved_solution`, which `GeneticAlgorithm` does
  not define. `max_generations` is used only there; it is kept in
  `Generation.Config` and nothing reads it.
- Probability distributions are not modelled: the uniformity of
  `random.choice`, `random.randint` and `random.sample`. Each draw is an
  input constrained to the range the function guarantees.
- The float comparison `random.random() < mutation_rate` becomes a boolean
  per cell. `Operators.IsMutationDraw` constrains it only where the rate
  forces the answer (never at or below 0, always at or above 1).
- Generation.RandomSelectionCount computes `len(population) * portion`
  exactly over the reals. The source multiplies IEEE doubles, so where
  rounding carries the product across an integer the two counts can differ
  by one.
- The `float('-inf')` sentinel of `get_best_solution` becomes an `Option`.
- Python aliasing is not modelled. Crossover shares row lists with its
  parents, and random picks re-append the same object. Grids are values
  here; this is faithful because `mutate` copies every row before writing.
- ValidNumbers.AscendingList fixes the order of `list(valid_numbers)` as
  ascending, which is CPython's order for small integers. The language does
  not promise that order, and it only decides where a draw lands.
- Exceptions the source raises are excluded by preconditions:
  - `random.sample` with a tournament size above the population or below 0
    (`Selection.TournamentSelection`);
  - an empty tournament, whose None reaches `crossover`
    (`Generation.IsBreeding`);
  - `is_solved(None)` on an empty population
    (`Evolution.EvolvePopulation`).
- NakedSingles.SudokuUI.FillObviousSquares counts its sweeps in a ghost
  out-parameter; the source keeps no such count.
- Mutation may overwrite givens, as in the source. The model proves
  nothing that would need givens to survive a mutation.

## Findings

| source | as written | input that shows it | evidently intended | confidence | as-written member | corrected member |
|---|---|---|---|---|---|---|
| genetic_algorithm.py:65-67 | `is_solved` returns `evaluate_fitness(grid) == 0`, but every grid scores between 27 and 243, so the test never holds and `evolve_population` never returns a solution | any valid completed grid, whose fitness is 243: `is_solved` returns False | `evaluate_fitness(grid) == 243`, the maximum, reached exactly when no unit repeats a value | high (proved; not executed) | FitnessEvaluation.IsSolvedNeverHolds, Generation.ConcludeNeverSolves | FitnessEvaluation.IsSolvedCorrectedIffValid, Generation.ConcludeCorrectedFindsSolutions |
