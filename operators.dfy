/** The two variation operators of genetic_algorithm.py: per-cell overwrite
    mutation (`mutate`) and whole-row single-point crossover (`crossover`).
    Their random draws are inputs. */
module Operators {
  import opened SudokuGrid

  /** The draws of one `mutate` call: for each cell, whether
      `random.random() < mutation_rate` held (`fire`) and the value
      `random.randint(1, 9)` gave (`digits`; unused where nothing fired). */
  datatype MutationTable = MutationTable(fire: seq<seq<bool>>, digits: seq<seq<int>>)

  predicate IsMutationShape(d: MutationTable) {
    |d.fire| == 9 && |d.digits| == 9 &&
    forall i :: 0 <= i < 9 ==> |d.fire[i]| == 9 && |d.digits[i]| == 9
  }

  /** One draw per cell of the 9x9 grid. */
  type MutationDraw = d: MutationTable | IsMutationShape(d)
    witness MutationTable(seq(9, _ => seq(9, _ => false)), seq(9, _ => seq(9, _ => 1)))

  /** What the random source guarantees of the draws for a given rate:
      randint(1, 9) lies in 1..9, and random() lies in [0, 1), so nothing
      fires at a rate <= 0 and everything fires at a rate >= 1. */
  predicate IsMutationDraw(mutationRate: real, d: MutationDraw) {
    && (forall i, j :: 0 <= i < 9 && 0 <= j < 9 ==> 1 <= d.digits[i][j] <= 9)
    && (mutationRate <= 0.0 ==> forall i, j :: 0 <= i < 9 && 0 <= j < 9 ==> !d.fire[i][j])
    && (mutationRate >= 1.0 ==> forall i, j :: 0 <= i < 9 && 0 <= j < 9 ==> d.fire[i][j])
  }

  /** The grid `mutate` returns: a cell whose draw fired holds the drawn
      digit, every other cell its old value. */
  function Mutated(g: Grid, d: MutationDraw): (m: Grid) {
    seq(9, i requires 0 <= i < 9 =>
      seq(9, j requires 0 <= j < 9 => if d.fire[i][j] then d.digits[i][j] else g[i][j]))
  }

  /** mutate: copy every row, then overwrite each cell whose draw fired. */
  method Mutate(solution: Grid, mutationRate: real, draw: MutationDraw) returns (mutated: Grid)
    requires IsMutationDraw(mutationRate, draw)
    ensures mutated == Mutated(solution, draw)
  {
    mutated := solution;
    for i := 0 to 9
      invariant forall r :: 0 <= r < i ==> mutated[r] == Mutated(solution, draw)[r]
      invariant forall r :: i <= r < 9 ==> mutated[r] == solution[r]
    {
      for j := 0 to 9
        invariant forall r :: 0 <= r < i ==> mutated[r] == Mutated(solution, draw)[r]
        invariant forall r :: i < r < 9 ==> mutated[r] == solution[r]
        invariant forall c :: 0 <= c < j ==> mutated[i][c] == Mutated(solution, draw)[i][c]
        invariant forall c :: j <= c < 9 ==> mutated[i][c] == solution[i][c]
      {
        if draw.fire[i][j] {
          mutated := WithCell(mutated, i, j, draw.digits[i][j]);
        }
      }
      assert mutated[i] == Mutated(solution, draw)[i];
    }
  }

  /** Each cell of a mutated grid either keeps its value or, where its draw
      fired, holds a digit 1..9; nothing else changes. */
  lemma MutatedCells(g: Grid, mutationRate: real, d: MutationDraw)
    requires IsMutationDraw(mutationRate, d)
    ensures forall i, j :: 0 <= i < 9 && 0 <= j < 9 ==>
      (Mutated(g, d)[i][j] == g[i][j] || 1 <= Mutated(g, d)[i][j] <= 9)
    ensures forall i, j :: 0 <= i < 9 && 0 <= j < 9 && !d.fire[i][j] ==> Mutated(g, d)[i][j] == g[i][j]
  {
  }

  /** When no draw fires, the mutated grid equals the input; in particular
      a mutation rate of 0 (or below) never changes a grid. */
  lemma MutationWithoutFiringIsIdentity(g: Grid, mutationRate: real, d: MutationDraw)
    requires IsMutationDraw(mutationRate, d)
    requires mutationRate <= 0.0 || forall i, j :: 0 <= i < 9 && 0 <= j < 9 ==> !d.fire[i][j]
    ensures Mutated(g, d) == g
  {
    var m := Mutated(g, d);
    forall i | 0 <= i < 9 ensures m[i] == g[i] {
      assert forall j :: 0 <= j < 9 ==> m[i][j] == g[i][j];
    }
  }

  /** At a mutation rate of 1 or more every cell is overwritten, so the
      result is the grid of drawn digits whatever the input. */
  lemma FullRateMutation(g: Grid, h: Grid, mutationRate: real, d: MutationDraw)
    requires IsMutationDraw(mutationRate, d) && mutationRate >= 1.0
    ensures Mutated(g, d) == Mutated(h, d)
    ensures forall i, j :: 0 <= i < 9 && 0 <= j < 9 ==> 1 <= Mutated(g, d)[i][j] <= 9
  {
    var mg, mh := Mutated(g, d), Mutated(h, d);
    forall i | 0 <= i < 9 ensures mg[i] == mh[i] {
      assert forall j :: 0 <= j < 9 ==> mg[i][j] == mh[i][j];
    }
  }

  /** The child of single-point crossover at `cut`: rows above the cut from
      parent1, the rest from parent2. */
  function Spliced(parent1: Grid, parent2: Grid, cut: int): (child: Grid)
    requires 0 <= cut <= 8
    ensures child[..cut] == parent1[..cut] && child[cut..] == parent2[cut..]
  {
    parent1[..cut] + parent2[cut..]
  }

  /** crossover: append parent1's row i for i below the cut, parent2's
      otherwise. */
  method Crossover(parent1: Grid, parent2: Grid, cut: int) returns (child: Grid)
    requires 0 <= cut <= 8
    ensures child == Spliced(parent1, parent2, cut)
  {
    var rows: seq<seq<int>> := [];
    for i := 0 to 9
      invariant |rows| == i
      invariant forall r :: 0 <= r < i ==> rows[r] == if r < cut then parent1[r] else parent2[r]
    {
      if i < cut {
        rows := rows + [parent1[i]];
      } else {
        rows := rows + [parent2[i]];
      }
    }
    assert rows == Spliced(parent1, parent2, cut);
    child := rows;
  }

  /** Row by row: row i of the child is parent1's below the cut and
      parent2's from the cut on; so the last row always comes from parent2,
      and a cut of 0 returns parent2 itself. */
  lemma SplicedRows(parent1: Grid, parent2: Grid, cut: int)
    requires 0 <= cut <= 8
    ensures forall i :: 0 <= i < 9 ==>
      Spliced(parent1, parent2, cut)[i] == if i < cut then parent1[i] else parent2[i]
    ensures Spliced(parent1, parent2, cut)[8] == parent2[8]
    ensures cut == 0 ==> Spliced(parent1, parent2, cut) == parent2
  {
    var child := Spliced(parent1, parent2, cut);
    forall i | 0 <= i < 9 ensures child[i] == if i < cut then parent1[i] else parent2[i] {
      if i < cut {
        assert child[..cut][i] == parent1[..cut][i];
      } else {
        assert child[cut..][i - cut] == parent2[cut..][i - cut];
      }
    }
  }

  /** A cell on which both parents agree (a given both carry, say) keeps
      that value in the child, whatever the cut. */
  lemma SplicedKeepsAgreement(parent1: Grid, parent2: Grid, cut: int)
    requires 0 <= cut <= 8
    ensures forall i, j :: 0 <= i < 9 && 0 <= j < 9 && parent1[i][j] == parent2[i][j] ==>
      Spliced(parent1, parent2, cut)[i][j] == parent1[i][j]
    ensures parent1 == parent2 ==> Spliced(parent1, parent2, cut) == parent1
  {
    SplicedRows(parent1, parent2, cut);
  }
}
