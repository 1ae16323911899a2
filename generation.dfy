/** One generation of the genetic solver (`evolve_population` of
    genetic_algorithm.py) as a function of the current population and of the
    random draws the step consumes, with the solver's parameters. */
module Generation {
  import opened SudokuGrid
  import opened FitnessEvaluation
  import opened Operators
  import opened Selection

  /** The solver's parameters (the `GeneticAlgorithm` constructor). */
  datatype Config = Config(
    populationSize: int,
    maxGenerations: int,
    mutationRate: real,
    tournamentSize: int,
    randomSelectionPortion: real)

  /** The constructor's default arguments. */
  const DefaultConfig: Config := Config(100, 1000, 0.05, 10, 0.1)

  /** Python's `int()` on a float: truncation toward zero. */
  function Trunc(x: real): (n: int)
    ensures 0.0 <= x ==> 0 <= n && n as real <= x < n as real + 1.0
    ensures x < 0.0 ==> n <= 0 && n as real - 1.0 < x <= n as real
  {
    if x >= 0.0 then x.Floor else -((-x).Floor)
  }

  /** The number of iterations of `range(k)`: none when k is negative. */
  function Max0(k: int): nat {
    if k < 0 then 0 else k
  }

  /** `num_random_selection` and `num_tournament_selection` for a
      population of n members. */
  function RandomSelectionCount(cfg: Config, n: nat): int {
    Trunc(n as real * cfg.randomSelectionPortion)
  }

  function TournamentSelectionCount(cfg: Config, n: nat): int {
    n - RandomSelectionCount(cfg, n)
  }

  /** The draws of one tournament-bred child: the two tournaments' samples
      of indices and the crossover point. */
  datatype Breeding = Breeding(sample1: seq<nat>, sample2: seq<nat>, cut: int)

  /** The draws of one generation: the indices `random.choice` returns for
      the randomly kept members, one Breeding per tournament child, and one
      MutationDraw per member of the new population. */
  datatype GenerationDraws = GenerationDraws(
    picks: seq<nat>,
    breedings: seq<Breeding>,
    mutations: seq<MutationDraw>)

  /** Both tournaments sample `tournamentSize` distinct members, at least
      one (an empty tournament yields None, on which `crossover` fails),
      and the crossover point lies in 0..8 (`random.randint(0, 8)`). */
  predicate IsBreeding(n: nat, tournamentSize: int, b: Breeding) {
    && 1 <= tournamentSize <= n
    && IsSample(b.sample1, n, tournamentSize)
    && IsSample(b.sample2, n, tournamentSize)
    && 0 <= b.cut <= 8
  }

  /** Draws that the random source can produce for this population and
      configuration, one per iteration of each loop of the step. */
  predicate IsGenerationDraws(cfg: Config, n: nat, d: GenerationDraws) {
    && |d.picks| == Max0(RandomSelectionCount(cfg, n))
    && (forall m :: 0 <= m < |d.picks| ==> d.picks[m] < n)
    && |d.breedings| == Max0(TournamentSelectionCount(cfg, n))
    && (forall m :: 0 <= m < |d.breedings| ==> IsBreeding(n, cfg.tournamentSize, d.breedings[m]))
    && |d.mutations| == |d.picks| + |d.breedings|
    && (forall m :: 0 <= m < |d.mutations| ==> IsMutationDraw(cfg.mutationRate, d.mutations[m]))
  }

  /** The child of one breeding: the crossover of the winners of two
      tournaments. */
  function Offspring(pop: seq<Grid>, tournamentSize: int, b: Breeding): Grid
    requires IsBreeding(|pop|, tournamentSize, b)
  {
    var parent1 := BestSolution(Pick(pop, b.sample1)).value;
    var parent2 := BestSolution(Pick(pop, b.sample2)).value;
    Spliced(parent1, parent2, b.cut)
  }

  /** The children bred from the given breedings, in order. */
  function Children(pop: seq<Grid>, tournamentSize: int, breedings: seq<Breeding>): (children: seq<Grid>)
    requires forall m :: 0 <= m < |breedings| ==> IsBreeding(|pop|, tournamentSize, breedings[m])
    ensures |children| == |breedings|
  {
    seq(|breedings|, m requires 0 <= m < |breedings| => Offspring(pop, tournamentSize, breedings[m]))
  }

  /** Child t is bred from breeding t. */
  lemma ChildAt(pop: seq<Grid>, tournamentSize: int, breedings: seq<Breeding>, t: int)
    requires forall m :: 0 <= m < |breedings| ==> IsBreeding(|pop|, tournamentSize, breedings[m])
    requires 0 <= t < |breedings|
    ensures Children(pop, tournamentSize, breedings)[t] == Offspring(pop, tournamentSize, breedings[t])
  {
  }

  /** The new population before mutation: the randomly kept members, then
      the tournament-bred children. */
  function Selected(cfg: Config, pop: seq<Grid>, d: GenerationDraws): (selected: seq<Grid>)
    requires IsGenerationDraws(cfg, |pop|, d)
    ensures |selected| == |d.mutations|
  {
    Pick(pop, d.picks) + Children(pop, cfg.tournamentSize, d.breedings)
  }

  /** Every member mutated with its own draw. */
  function MutatedAll(selected: seq<Grid>, mutations: seq<MutationDraw>): (mutated: seq<Grid>)
    requires |mutations| == |selected|
    ensures |mutated| == |selected|
  {
    seq(|selected|, m requires 0 <= m < |selected| => Mutated(selected[m], mutations[m]))
  }

  /** The new population: every selected member mutated with its own draw. */
  function NextGeneration(cfg: Config, pop: seq<Grid>, d: GenerationDraws): (next: seq<Grid>)
    requires IsGenerationDraws(cfg, |pop|, d)
    ensures |next| == |d.mutations|
  {
    MutatedAll(Selected(cfg, pop, d), d.mutations)
  }

  /** `evolve_population` returns either a single grid it judged solved or
      the new population. */
  datatype Outcome = Solved(solution: Grid) | Continue(population: seq<Grid>)

  /** The end of the step as written: the best new member is returned when
      `is_solved` holds of it. */
  function Conclude(next: seq<Grid>): Outcome
    requires |next| > 0
  {
    var best := BestSolution(next).value;
    if IsSolved(best) then Solved(best) else Continue(next)
  }

  /** The end of the step with the evidently intended solved test. */
  function ConcludeCorrected(next: seq<Grid>): Outcome
    requires |next| > 0
  {
    var best := BestSolution(next).value;
    if IsSolvedCorrected(best) then Solved(best) else Continue(next)
  }

  /** The new population has max(0, r) + max(0, n - r) members, r being
      the truncated product of n and the random-selection portion; for a
      portion in [0, 1] that is exactly n, and it is never empty when the
      population is not. */
  lemma NextGenerationSize(cfg: Config, pop: seq<Grid>, d: GenerationDraws)
    requires IsGenerationDraws(cfg, |pop|, d)
    ensures |NextGeneration(cfg, pop, d)| ==
      Max0(RandomSelectionCount(cfg, |pop|)) + Max0(|pop| - RandomSelectionCount(cfg, |pop|))
    ensures |pop| > 0 ==> |NextGeneration(cfg, pop, d)| > 0
    ensures 0.0 <= cfg.randomSelectionPortion <= 1.0 ==> |NextGeneration(cfg, pop, d)| == |pop|
  {
    if 0.0 <= cfg.randomSelectionPortion <= 1.0 {
      PortionCount(|pop|, cfg.randomSelectionPortion);
    }
  }

  /** A portion in [0, 1] of n members, truncated, lies in 0..n. */
  lemma PortionCount(n: nat, p: real)
    requires 0.0 <= p <= 1.0
    ensures 0 <= Trunc(n as real * p) <= n
  {
    var x := n as real;
    assert x - x * p == x * (1.0 - p);
    assert 0.0 <= x * p <= x;
    var r := Trunc(x * p);
    assert r as real <= x;
  }

  /** With the default parameters a population of 100 keeps 10 members at
      random and breeds 90 children. */
  lemma DefaultSelectionCounts()
    ensures RandomSelectionCount(DefaultConfig, 100) == 10
    ensures TournamentSelectionCount(DefaultConfig, 100) == 90
  {
    assert 100 as real * 0.1 == 10.0;
  }

  /** Member m of the new population is, before its mutation, the member
      of the old population `random.choice` returned when m is among the
      first max(0, r) positions ... */
  lemma KeptMember(cfg: Config, pop: seq<Grid>, d: GenerationDraws, m: int)
    requires IsGenerationDraws(cfg, |pop|, d)
    requires 0 <= m < |d.picks|
    ensures NextGeneration(cfg, pop, d)[m] == Mutated(pop[d.picks[m]], d.mutations[m])
  {
    var selected := Selected(cfg, pop, d);
    var next := MutatedAll(selected, d.mutations);
    assert next[m] == Mutated(selected[m], d.mutations[m]);
    assert selected[m] == Pick(pop, d.picks)[m];
  }

  /** ... and otherwise the crossover of the winners of two tournaments. */
  lemma BredMember(cfg: Config, pop: seq<Grid>, d: GenerationDraws, m: int)
    requires IsGenerationDraws(cfg, |pop|, d)
    requires |d.picks| <= m < |d.mutations|
    ensures NextGeneration(cfg, pop, d)[m] ==
      Mutated(Offspring(pop, cfg.tournamentSize, d.breedings[m - |d.picks|]), d.mutations[m])
  {
    var selected := Selected(cfg, pop, d);
    var next := MutatedAll(selected, d.mutations);
    assert next[m] == Mutated(selected[m], d.mutations[m]);
    var k := m - |d.picks|;
    var child := Offspring(pop, cfg.tournamentSize, d.breedings[k]);
    assert Children(pop, cfg.tournamentSize, d.breedings)[k] == child;
    assert selected[m] == child;
  }

  /** Without mutation (no draw fires, as at a mutation rate of 0), every
      row of every new member is the same row of some member of the old
      population: a generation only recombines existing rows. */
  lemma RowsInheritedWithoutMutation(cfg: Config, pop: seq<Grid>, d: GenerationDraws, m: int, i: int)
    requires IsGenerationDraws(cfg, |pop|, d)
    requires forall k, r, c :: 0 <= k < |d.mutations| && 0 <= r < 9 && 0 <= c < 9 ==> !d.mutations[k].fire[r][c]
    requires 0 <= m < |d.mutations| && 0 <= i < 9
    ensures exists p :: 0 <= p < |pop| && NextGeneration(cfg, pop, d)[m][i] == pop[p][i]
  {
    if m < |d.picks| {
      KeptMember(cfg, pop, d, m);
      MutationWithoutFiringIsIdentity(pop[d.picks[m]], cfg.mutationRate, d.mutations[m]);
      assert NextGeneration(cfg, pop, d)[m][i] == pop[d.picks[m]][i];
    } else {
      BredMember(cfg, pop, d, m);
      var b := d.breedings[m - |d.picks|];
      MutationWithoutFiringIsIdentity(Offspring(pop, cfg.tournamentSize, b), cfg.mutationRate, d.mutations[m]);
      OffspringRowsInherited(pop, cfg.tournamentSize, b, i);
    }
  }

  /** Every row of a tournament-bred child is the same row of a member of
      the population: of a sampled member of the first tournament above the
      cut, of the second from the cut on. */
  lemma OffspringRowsInherited(pop: seq<Grid>, tournamentSize: int, b: Breeding, i: int)
    requires IsBreeding(|pop|, tournamentSize, b)
    requires 0 <= i < 9
    ensures exists p :: 0 <= p < |pop| && Offspring(pop, tournamentSize, b)[i] == pop[p][i]
  {
    var parent1 := BestSolution(Pick(pop, b.sample1)).value;
    var parent2 := BestSolution(Pick(pop, b.sample2)).value;
    TournamentWinner(pop, tournamentSize, b.sample1);
    TournamentWinner(pop, tournamentSize, b.sample2);
    SplicedRows(parent1, parent2, b.cut);
    if i < b.cut {
      var k :| 0 <= k < |b.sample1| && parent1 == pop[b.sample1[k]];
      assert Offspring(pop, tournamentSize, b)[i] == pop[b.sample1[k]][i];
    } else {
      var k :| 0 <= k < |b.sample2| && parent2 == pop[b.sample2[k]];
      assert Offspring(pop, tournamentSize, b)[i] == pop[b.sample2[k]][i];
    }
  }

  /** The solved test as written never fires: every step returns its new
      population, even when that population contains a valid solution. */
  lemma ConcludeNeverSolves(next: seq<Grid>)
    requires |next| > 0
    ensures Conclude(next) == Continue(next)
  {
    IsSolvedNeverHolds(BestSolution(next).value);
  }

  /** With the corrected test, the step returns a single grid exactly when
      some new member has all 27 units free of repeats, and the grid it
      returns is such a member (a valid solution when its cells are
      digits). */
  lemma ConcludeCorrectedFindsSolutions(next: seq<Grid>)
    requires |next| > 0
    ensures ConcludeCorrected(next).Solved? <==> exists g :: g in next && AllUnitsDistinct(g)
    ensures ConcludeCorrected(next).Solved? ==>
      ConcludeCorrected(next).solution in next && AllUnitsDistinct(ConcludeCorrected(next).solution)
  {
    var best := BestSolution(next).value;
    BestSolutionIsFittest(next);
    IsSolvedCorrectedIffValid(best);
    if g :| g in next && AllUnitsDistinct(g) {
      IsSolvedCorrectedIffValid(g);
      FitnessBounds(best);
    }
  }
}
