/** Choosing individuals by fitness: `get_best_solution`,
    `tournament_selection` and the unused two-way `selection` of
    genetic_algorithm.py, specified by functions on the population. */
module Selection {
  import opened SudokuGrid
  import opened FitnessEvaluation

  /** The index `get_best_solution` settles on: the first member of maximal
      fitness (a later member replaces the running best only when strictly
      fitter), or None for an empty population. */
  function FirstBestIndex(pop: seq<Grid>): (k: Option<nat>)
    ensures k.None? <==> |pop| == 0
    ensures k.Some? ==> k.value < |pop|
    ensures k.Some? ==> forall j :: 0 <= j < |pop| ==> Fitness(pop[j]) <= Fitness(pop[k.value])
    ensures k.Some? ==> forall j :: 0 <= j < k.value ==> Fitness(pop[j]) < Fitness(pop[k.value])
  {
    if |pop| == 0 then None
    else
      var last := |pop| - 1;
      var init := pop[..last];
      var prev := FirstBestIndex(init);
      assert forall j :: 0 <= j < last ==> init[j] == pop[j];
      if prev.None? then
        assert last == 0;
        Some(last)
      else if Fitness(pop[last]) > Fitness(init[prev.value]) then
        Some(last)
      else
        prev
  }

  /** The member `get_best_solution` returns (None where the source returns
      None). */
  function BestSolution(pop: seq<Grid>): (best: Option<Grid>)
    ensures best.None? <==> |pop| == 0
  {
    match FirstBestIndex(pop)
    case None => None
    case Some(k) => Some(pop[k])
  }

  /** Index k is the one `get_best_solution` settles on exactly when no
      member is fitter than member k and every member before it is strictly
      less fit: ties go to the earliest. */
  lemma FirstBestIndexIsFirstFittest(pop: seq<Grid>, k: nat)
    requires k < |pop|
    ensures FirstBestIndex(pop) == Some(k) <==>
      (forall j :: 0 <= j < |pop| ==> Fitness(pop[j]) <= Fitness(pop[k])) &&
      (forall j :: 0 <= j < k ==> Fitness(pop[j]) < Fitness(pop[k]))
  {
    var m := FirstBestIndex(pop).value;
    if (forall j :: 0 <= j < |pop| ==> Fitness(pop[j]) <= Fitness(pop[k])) &&
       (forall j :: 0 <= j < k ==> Fitness(pop[j]) < Fitness(pop[k])) {
      // m and k are both maximal, so neither can come strictly first.
      assert Fitness(pop[m]) == Fitness(pop[k]);
    }
  }

  /** The best member of a non-empty population has the largest fitness in it. */
  lemma BestSolutionIsFittest(pop: seq<Grid>)
    requires |pop| > 0
    ensures BestSolution(pop).Some?
    ensures BestSolution(pop).value in pop
    ensures forall g :: g in pop ==> Fitness(g) <= Fitness(BestSolution(pop).value)
  {
    var k := FirstBestIndex(pop).value;
    assert BestSolution(pop).value == pop[k];
  }

  /** get_best_solution: a running maximum of fitness, replaced only on a
      strict improvement; `best_fitness = float('-inf')` becomes None. */
  method GetBestSolution(population: seq<Grid>) returns (bestSolution: Option<Grid>)
    ensures bestSolution == BestSolution(population)
  {
    var bestFitness: Option<int> := None;
    bestSolution := None;
    for k := 0 to |population|
      invariant bestSolution == BestSolution(population[..k])
      invariant bestFitness.None? <==> bestSolution.None?
      invariant bestSolution.Some? ==> bestFitness == Some(Fitness(bestSolution.value))
    {
      var solution := population[k];
      var fitness := EvaluateFitness(solution);
      var seen := population[..k + 1];
      assert seen[..k] == population[..k];
      var prev := FirstBestIndex(population[..k]);
      assert prev.Some? ==> seen[prev.value] == population[prev.value];
      if bestFitness.None? || fitness > bestFitness.value {
        bestFitness := Some(fitness);
        bestSolution := Some(solution);
      }
    }
    assert population[..|population|] == population;
  }

  /** `random.sample(range(n), size)`: `size` distinct indices below n. */
  predicate IsSample(sample: seq<nat>, n: nat, size: nat) {
    && |sample| == size
    && (forall m :: 0 <= m < |sample| ==> sample[m] < n)
    && (forall m, m' :: 0 <= m < m' < |sample| ==> sample[m] != sample[m'])
  }

  /** The members a sample of indices picks out, in sample order. */
  function Pick(pop: seq<Grid>, sample: seq<nat>): (picked: seq<Grid>)
    requires forall m :: 0 <= m < |sample| ==> sample[m] < |pop|
    ensures |picked| == |sample|
    ensures forall m :: 0 <= m < |sample| ==> picked[m] == pop[sample[m]]
  {
    seq(|sample|, m requires 0 <= m < |sample| => pop[sample[m]])
  }

  /** tournament_selection: the best of `tournamentSize` distinct members
      drawn at random; `random.sample` raises ValueError when the size is
      negative or exceeds the population, which the precondition excludes. */
  method TournamentSelection(population: seq<Grid>, tournamentSize: int, sample: seq<nat>)
    returns (winner: Option<Grid>)
    requires 0 <= tournamentSize <= |population|
    requires IsSample(sample, |population|, tournamentSize)
    ensures winner == BestSolution(Pick(population, sample))
  {
    var tournament := Pick(population, sample);
    winner := GetBestSolution(tournament);
  }

  /** A tournament of at least one member is won by one of the sampled
      members, fitter than or as fit as every other sampled member and no
      fitter than the fittest member of the population; a tournament of
      size 0 yields None. */
  lemma TournamentWinner(pop: seq<Grid>, tournamentSize: int, sample: seq<nat>)
    requires 0 <= tournamentSize <= |pop|
    requires IsSample(sample, |pop|, tournamentSize)
    ensures tournamentSize == 0 <==> BestSolution(Pick(pop, sample)).None?
    ensures tournamentSize > 0 ==>
      var w := BestSolution(Pick(pop, sample)).value;
      (exists m :: 0 <= m < |sample| && w == pop[sample[m]]) &&
      (forall m :: 0 <= m < |sample| ==> Fitness(pop[sample[m]]) <= Fitness(w)) &&
      Fitness(w) <= Fitness(BestSolution(pop).value)
  {
    if tournamentSize > 0 {
      var picked := Pick(pop, sample);
      var k := FirstBestIndex(picked).value;
      var w := picked[k];
      assert BestSolution(picked).value == w;
      BestSolutionIsFittest(pop);
      assert w == pop[sample[k]];
      assert w in pop;
    }
  }

  /** A tournament over the whole population (every index sampled) returns
      a member of maximal fitness of the population. */
  lemma FullTournamentIsFittest(pop: seq<Grid>, sample: seq<nat>)
    requires |pop| > 0
    requires IsSample(sample, |pop|, |pop|)
    ensures Fitness(BestSolution(Pick(pop, sample)).value) == Fitness(BestSolution(pop).value)
  {
    TournamentWinner(pop, |pop|, sample);
    var i := FirstBestIndex(pop).value;
    AllIndicesSampled(sample, |pop|, i);
    var m :| 0 <= m < |sample| && sample[m] == i;
    assert Fitness(pop[sample[m]]) <= Fitness(BestSolution(Pick(pop, sample)).value);
  }

  /** A sample of n distinct indices below n contains every index below n. */
  lemma AllIndicesSampled(sample: seq<nat>, n: nat, i: nat)
    requires IsSample(sample, n, n) && i < n
    ensures exists m :: 0 <= m < |sample| && sample[m] == i
  {
    var indices: seq<int> := seq(n, x => x);
    var sampled: seq<int> := sample;
    assert Distinct(sampled);
    assert Distinct(indices);
    ValuesCardinality(sampled);
    ValuesCardinality(indices);
    assert Values(sampled) <= Values(indices) by {
      forall x | x in Values(sampled) ensures x in Values(indices) {
        var m :| 0 <= m < |sampled| && sampled[m] == x;
        assert indices[x] == x;
      }
    }
    SubsetOfSameSize(Values(sampled), Values(indices));
    assert indices[i] == i;
    assert i in Values(sampled);
  }

  /** selection: draw two members at random (indices i1, i2) and keep the
      first only when it is strictly fitter; ties go to the second. */
  method BinarySelection(population: seq<Grid>, i1: nat, i2: nat) returns (winner: Grid)
    requires i1 < |population| && i2 < |population|
    ensures winner == population[i1] || winner == population[i2]
    ensures winner == population[i1] <== Fitness(population[i1]) > Fitness(population[i2])
    ensures Fitness(winner) >= Fitness(population[i1]) && Fitness(winner) >= Fitness(population[i2])
    ensures Fitness(population[i1]) <= Fitness(population[i2]) ==> winner == population[i2]
  {
    var individual1 := population[i1];
    var individual2 := population[i2];
    var fitness1 := EvaluateFitness(individual1);
    var fitness2 := EvaluateFitness(individual2);
    winner := if fitness1 > fitness2 then individual1 else individual2;
  }
}
