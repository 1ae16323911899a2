/** Fitness of a candidate grid (`evaluate_fitness`) and the solved test
    (`is_solved`) of genetic_algorithm.py. Fitness counts the distinct
    values of each of the 27 units; 0 is counted like any other value. */
module FitnessEvaluation {
  import opened SudokuGrid

  /** The three counts contributed by unit index i: row i, column i and box i. */
  function UnitScore(g: Grid, i: int): int
    requires 0 <= i < 9
  {
    |Values(g[i])| + |Values(Column(g, i))| + |Values(Box(g, i))|
  }

  /** The running total after unit indices 0 .. n - 1. */
  function FitnessUpTo(g: Grid, n: int): int
    requires 0 <= n <= 9
  {
    if n == 0 then 0 else FitnessUpTo(g, n - 1) + UnitScore(g, n - 1)
  }

  function Fitness(g: Grid): int {
    FitnessUpTo(g, 9)
  }

  /** Row i, column i and box i each hold nine pairwise-distinct entries. */
  predicate UnitDistinct(g: Grid, i: int)
    requires 0 <= i < 9
  {
    Distinct(g[i]) && Distinct(Column(g, i)) && Distinct(Box(g, i))
  }

  /** Every row, column and box holds nine pairwise-distinct entries. */
  predicate AllUnitsDistinct(g: Grid) {
    forall i :: 0 <= i < 9 ==> UnitDistinct(g, i)
  }

  /** Every row, column and box is a permutation of 1..9. */
  predicate IsValidSolution(g: Grid) {
    forall i :: 0 <= i < 9 ==>
      Values(g[i]) == Digits && Values(Column(g, i)) == Digits && Values(Box(g, i)) == Digits
  }

  /** The values of column i, built as the source builds them. */
  lemma ColumnValues(g: Grid, i: int)
    requires 0 <= i < 9
    ensures (set j | 0 <= j < 9 :: g[j][i]) == Values(Column(g, i))
  {
    var col := Column(g, i);
    forall x | x in Values(col) ensures x in (set j | 0 <= j < 9 :: g[j][i]) {
      var j :| 0 <= j < 9 && col[j] == x;
    }
  }

  /** Every value of box i occurs in the rectangle the source scans. */
  lemma BoxValuesInRect(g: Grid, i: int, top: int, left: int, rect: set<int>)
    requires 0 <= i < 9 && top == BoxTop(i) && left == BoxLeft(i)
    requires rect == set j, k | top <= j < top + 3 && left <= k < left + 3 :: g[j][k]
    ensures Values(Box(g, i)) <= rect
  {
    var box := Box(g, i);
    forall x | x in Values(box) ensures x in rect {
      var p :| 0 <= p < 9 && box[p] == x;
      var j, k := top + Band(p), left + p - 3 * Band(p);
      assert g[j][k] == x;
    }
  }

  /** Every value of the rectangle the source scans occurs in box i. */
  lemma RectValuesInBox(g: Grid, i: int, top: int, left: int, rect: set<int>)
    requires 0 <= i < 9 && top == BoxTop(i) && left == BoxLeft(i)
    requires rect == set j, k | top <= j < top + 3 && left <= k < left + 3 :: g[j][k]
    ensures rect <= Values(Box(g, i))
  {
    var box := Box(g, i);
    forall x | x in rect ensures x in Values(box) {
      var j, k :| top <= j < top + 3 && left <= k < left + 3 && g[j][k] == x;
      var p := (j - top) * 3 + (k - left);
      assert box[p] == x;
    }
  }

  /** The values of box i, built as the source builds them (rows
      top .. top + 2 and columns left .. left + 2, where top is i // 3 * 3
      and left is i % 3 * 3). */
  lemma BoxValues(g: Grid, i: int, top: int, left: int, rect: set<int>)
    requires 0 <= i < 9 && top == BoxTop(i) && left == BoxLeft(i)
    requires rect == set j, k | top <= j < top + 3 && left <= k < left + 3 :: g[j][k]
    ensures rect == Values(Box(g, i))
  {
    BoxValuesInRect(g, i, top, left, rect);
    RectValuesInBox(g, i, top, left, rect);
  }

  lemma FitnessUpToStep(g: Grid, i: int, rowValues: set<int>, columnValues: set<int>, boxValues: set<int>)
    requires 0 <= i < 9
    requires rowValues == Values(g[i]) && columnValues == Values(Column(g, i)) && boxValues == Values(Box(g, i))
    ensures FitnessUpTo(g, i + 1) == FitnessUpTo(g, i) + |rowValues| + |columnValues| + |boxValues|
  {
  }

  /** evaluate_fitness: sum, over unit index i, of the number of distinct
      values in row i, column i and box i. */
  method EvaluateFitness(solution: Grid) returns (fitness: int)
    ensures fitness == Fitness(solution)
  {
    fitness := 0;
    for i := 0 to 9
      invariant fitness == FitnessUpTo(solution, i)
    {
      var rowValues := set x | x in solution[i];
      var columnValues := set j | 0 <= j < 9 :: solution[j][i];
      var top, left := i / 3 * 3, i % 3 * 3;
      var boxValues := set j, k | top <= j < top + 3 && left <= k < left + 3 :: solution[j][k];
      assert fitness + |rowValues| + |columnValues| + |boxValues| == FitnessUpTo(solution, i + 1) by {
        BandIsDivision(i);
        ColumnValues(solution, i);
        BoxValues(solution, i, top, left, boxValues);
        FitnessUpToStep(solution, i, rowValues, columnValues, boxValues);
      }
      fitness := fitness + |rowValues| + |columnValues| + |boxValues|;
    }
  }

  lemma UnitScoreBounds(g: Grid, i: int)
    requires 0 <= i < 9
    ensures 3 <= UnitScore(g, i) <= 27
    ensures UnitScore(g, i) == 27 <==> UnitDistinct(g, i)
  {
    ValuesCardinality(g[i]);
    ValuesCardinality(Column(g, i));
    ValuesCardinality(Box(g, i));
  }

  lemma {:induction false} FitnessUpToBounds(g: Grid, n: int)
    requires 0 <= n <= 9
    ensures 3 * n <= FitnessUpTo(g, n) <= 27 * n
    ensures FitnessUpTo(g, n) == 27 * n <==> forall i :: 0 <= i < n ==> UnitDistinct(g, i)
  {
    if n > 0 {
      FitnessUpToBounds(g, n - 1);
      UnitScoreBounds(g, n - 1);
      assert FitnessUpTo(g, n) == FitnessUpTo(g, n - 1) + UnitScore(g, n - 1);
      if FitnessUpTo(g, n) == 27 * n {
        assert FitnessUpTo(g, n - 1) == 27 * (n - 1) && UnitScore(g, n - 1) == 27;
      }
    }
  }

  /** For every 9x9 grid the fitness lies in [27, 243]: each of the 27
      units holds between 1 and 9 distinct values. */
  lemma FitnessBounds(g: Grid)
    ensures 27 <= Fitness(g) <= 243
  {
    FitnessUpToBounds(g, 9);
  }

  /** The fitness is 243 exactly when all 27 units have nine pairwise
      distinct entries. */
  lemma FitnessMaximalIffDistinct(g: Grid)
    ensures Fitness(g) == 243 <==> AllUnitsDistinct(g)
  {
    FitnessUpToBounds(g, 9);
  }

  /** On a grid of digits 1..9, unit index i is all-distinct exactly when its
      row, column and box are permutations of 1..9. */
  lemma UnitDistinctIffPermutation(g: Grid, i: int)
    requires 0 <= i < 9
    requires forall r, c :: 0 <= r < 9 && 0 <= c < 9 ==> 1 <= g[r][c] <= 9
    ensures UnitDistinct(g, i) <==>
            (Values(g[i]) == Digits && Values(Column(g, i)) == Digits && Values(Box(g, i)) == Digits)
  {
    DistinctDigitsArePermutation(g[i]);
    DistinctDigitsArePermutation(Column(g, i));
    var box := Box(g, i);
    forall k | 0 <= k < 9 ensures 1 <= box[k] <= 9 {
      BoxCellOf(i, k);
    }
    DistinctDigitsArePermutation(box);
  }

  /** On a grid filled with digits 1..9, fitness 243 means every row,
      column and box is a permutation of 1..9. */
  lemma FitnessMaximalIffSolution(g: Grid)
    requires forall i, j :: 0 <= i < 9 && 0 <= j < 9 ==> 1 <= g[i][j] <= 9
    ensures Fitness(g) == 243 <==> IsValidSolution(g)
  {
    FitnessMaximalIffDistinct(g);
    forall i | 0 <= i < 9
      ensures UnitDistinct(g, i) <==>
              (Values(g[i]) == Digits && Values(Column(g, i)) == Digits && Values(Box(g, i)) == Digits)
    {
      UnitDistinctIffPermutation(g, i);
    }
  }

  /** is_solved as written: the grid counts as solved when its fitness is 0. */
  predicate IsSolved(g: Grid) {
    Fitness(g) == 0
  }

  /** A unit of nine cells holding all nine digits has no repeated entry. */
  lemma PermutationIsDistinct(s: seq<int>)
    requires |s| == 9 && Values(s) == Digits
    ensures Distinct(s)
  {
    ValuesCardinality(s);
    DigitsCount();
  }

  lemma ValidSolutionIsDistinct(g: Grid)
    requires IsValidSolution(g)
    ensures AllUnitsDistinct(g)
  {
    forall i | 0 <= i < 9
      ensures UnitDistinct(g, i)
    {
      PermutationIsDistinct(g[i]);
      PermutationIsDistinct(Column(g, i));
      PermutationIsDistinct(Box(g, i));
    }
  }

  /** Fitness is never below 27, so `is_solved` holds of no grid at all,
      not even of a valid solution (whose fitness is 243). */
  lemma IsSolvedNeverHolds(g: Grid)
    ensures !IsSolved(g)
    ensures IsValidSolution(g) ==> Fitness(g) == 243
  {
    FitnessBounds(g);
    FitnessMaximalIffDistinct(g);
    if IsValidSolution(g) {
      ValidSolutionIsDistinct(g);
    }
  }

  /** The evidently intended solved test: fitness equal to the maximum, 243. */
  predicate IsSolvedCorrected(g: Grid) {
    Fitness(g) == 243
  }

  /** The corrected test holds exactly when every unit has nine distinct
      entries, and, on grids of digits 1..9, exactly on valid solutions. */
  lemma IsSolvedCorrectedIffValid(g: Grid)
    ensures IsSolvedCorrected(g) <==> AllUnitsDistinct(g)
    ensures (forall i, j :: 0 <= i < 9 && 0 <= j < 9 ==> 1 <= g[i][j] <= 9) ==>
              (IsSolvedCorrected(g) <==> IsValidSolution(g))
  {
    FitnessMaximalIffDistinct(g);
    if forall i, j :: 0 <= i < 9 && 0 <= j < 9 ==> 1 <= g[i][j] <= 9 {
      FitnessMaximalIffSolution(g);
    }
  }
}
