/** `evolve_population` of genetic_algorithm.py, loop by loop, proved
    against the functions of Generation. */
module Evolution {
  import opened SudokuGrid
  import opened FitnessEvaluation
  import opened Operators
  import opened Selection
  import opened Generation

  /** The first loop: `count` members chosen by `random.choice` (none when
      the count is zero or negative). */
  method KeepRandom(population: seq<Grid>, count: int, picks: seq<nat>) returns (kept: seq<Grid>)
    requires |picks| == Max0(count)
    requires forall m :: 0 <= m < |picks| ==> picks[m] < |population|
    ensures kept == Pick(population, picks)
  {
    kept := [];
    var m := 0;
    while m < count
      invariant 0 <= m <= |picks|
      invariant kept == Pick(population, picks[..m])
    {
      kept := kept + [population[picks[m]]];
      m := m + 1;
      assert kept == Pick(population, picks[..m]);
    }
    assert picks[..m] == picks;
  }

  /** The second loop: `count` children, each the crossover of the winners
      of two tournaments. */
  method BreedChildren(population: seq<Grid>, tournamentSize: int, count: int, breedings: seq<Breeding>)
    returns (children: seq<Grid>)
    requires |breedings| == Max0(count)
    requires forall m :: 0 <= m < |breedings| ==> IsBreeding(|population|, tournamentSize, breedings[m])
    ensures children == Children(population, tournamentSize, breedings)
  {
    children := [];
    ghost var all := Children(population, tournamentSize, breedings);
    var t := 0;
    while t < count
      invariant 0 <= t <= |breedings|
      invariant children == all[..t]
    {
      var b := breedings[t];
      var parent1 := TournamentSelection(population, tournamentSize, b.sample1);
      var parent2 := TournamentSelection(population, tournamentSize, b.sample2);
      var child := Crossover(parent1.value, parent2.value, b.cut);
      assert child == Offspring(population, tournamentSize, b);
      ChildAt(population, tournamentSize, breedings, t);
      PrefixSnoc(all, t);
      children := children + [child];
      t := t + 1;
    }
    assert all[..t] == all;
  }

  /** The third loop: every member replaced in place by its mutation. */
  method MutateAll(population: seq<Grid>, mutationRate: real, mutations: seq<MutationDraw>)
    returns (mutated: seq<Grid>)
    requires |mutations| == |population|
    requires forall m :: 0 <= m < |mutations| ==> IsMutationDraw(mutationRate, mutations[m])
    ensures mutated == MutatedAll(population, mutations)
  {
    mutated := population;
    for i := 0 to |mutated|
      invariant |mutated| == |population|
      invariant forall k :: 0 <= k < i ==> mutated[k] == Mutated(population[k], mutations[k])
      invariant forall k :: i <= k < |population| ==> mutated[k] == population[k]
    {
      var m := Mutate(mutated[i], mutationRate, mutations[i]);
      mutated := mutated[i := m];
    }
  }

  /** The end of evolve_population: find the best new member and return it
      if `is_solved` holds of it, else the whole new population. */
  method ConcludeStep(newPopulation: seq<Grid>) returns (outcome: Outcome)
    requires |newPopulation| > 0
    ensures outcome == Conclude(newPopulation)
  {
    var bestSolution := GetBestSolution(newPopulation);
    var fitness := EvaluateFitness(bestSolution.value);
    if fitness == 0 {
      outcome := Solved(bestSolution.value);
    } else {
      outcome := Continue(newPopulation);
    }
  }

  /** evolve_population: keep num_random_selection members chosen at
      random, breed num_tournament_selection children from pairs of
      tournament winners, mutate every new member, and return the best new
      member if it passes `is_solved`, else the new population. An empty
      population is excluded: the source then calls `is_solved(None)`,
      which raises. */
  method EvolvePopulation(cfg: Config, population: seq<Grid>, draws: GenerationDraws)
    returns (outcome: Outcome)
    requires |population| > 0
    requires IsGenerationDraws(cfg, |population|, draws)
    ensures outcome == Conclude(NextGeneration(cfg, population, draws))
  {
    var numRandomSelection := Trunc(|population| as real * cfg.randomSelectionPortion);
    var numTournamentSelection := |population| - numRandomSelection;
    var kept := KeepRandom(population, numRandomSelection, draws.picks);
    var children := BreedChildren(population, cfg.tournamentSize, numTournamentSelection, draws.breedings);
    assert kept + children == Selected(cfg, population, draws);
    var newPopulation := MutateAll(kept + children, cfg.mutationRate, draws.mutations);
    assert newPopulation == NextGeneration(cfg, population, draws) && |newPopulation| > 0 by {
      NextGenerationSize(cfg, population, draws);
    }
    outcome := ConcludeStep(newPopulation);
  }
}
