/**
 * The generational loop (`optimize` in NSGAII.java and GeneticAlgorithm.java): each generation
 * breeds offspring, merges them into the population and selects survivors back down to
 * `populationSize`.
 */
module Evolution {
  import opened Wrappers
  import opened Seqs
  import opened Pareto
  import opened Variation
  import ParetoSelection
  import ScalarSelection

  /** Which survivor selection the loop uses, with the problem-specific functions it needs. */
  datatype Strategy =
    | Nsga(evaluate: Genome -> Objectives, crowding: (seq<seq<Genome>>, Genome) -> real)
    | Scalar(fitnessScore: Genome -> real)

  /** The genome an identity stands for within a pool. */
  function At(pool: seq<Genome>, i: Id): Genome
  {
    if i < |pool| then pool[i] else []
  }

  /** The genomes a list of identities stands for, in order. */
  function Gather(pool: seq<Genome>, ids: seq<Id>): (r: seq<Genome>)
    ensures |r| == |ids|
    ensures forall k :: 0 <= k < |ids| && ids[k] < |pool| ==> r[k] == pool[ids[k]]
  {
    seq(|ids|, k requires 0 <= k < |ids| => At(pool, ids[k]))
  }

  /**
   * NSGA-II selection on genomes: the engine ranks the pool's positions, with the objectives
   * and crowding distances of the genomes found there, and the chosen positions are mapped back.
   */
  function ParetoSurvivors(evaluate: Genome -> Objectives, crowding: (seq<seq<Genome>>, Genome) -> real,
                           pool: seq<Genome>, populationSize: nat): (r: Result<seq<Genome>>)
    ensures r.Ok? <==> populationSize < |pool|
    ensures r.Ok? ==> |r.value| == populationSize
    ensures r.Ok? ==> forall k :: 0 <= k < |r.value| ==> r.value[k] in pool
  {
    var fit := (i: Id) => evaluate(At(pool, i));
    var distance :=
      (fronts: seq<seq<Id>>, i: Id) =>
        crowding(seq(|fronts|, k requires 0 <= k < |fronts| => Gather(pool, fronts[k])), At(pool, i));
    var selected := ParetoSelection.SelectNextGeneration(fit, distance, Indices(|pool|), populationSize);
    if selected.Err? then Err(selected.error)
    else
      SubMultisetOfIndices(selected.value, |pool|);
      Ok(Gather(pool, selected.value))
  }

  /** Survivor selection on genomes, by the chosen strategy. */
  function SelectSurvivors(strategy: Strategy, pool: seq<Genome>, populationSize: nat): (r: Result<seq<Genome>>)
    ensures r.Ok? <==> if strategy.Nsga? then populationSize < |pool| else populationSize <= |pool|
    ensures r.Ok? ==> |r.value| == populationSize
    ensures r.Ok? ==> forall k :: 0 <= k < |r.value| ==> r.value[k] in pool
  {
    match strategy
    case Nsga(evaluate, crowding) => ParetoSurvivors(evaluate, crowding, pool, populationSize)
    case Scalar(score) =>
      var r := ScalarSelection.SelectNextGeneration(score, pool, populationSize);
      if r.Ok? then
        SubMultisetMembers(r.value, pool);
        r
      else r
  }

  /** Draws the random source can supply for one generation: one per pair of children. */
  predicate ValidGenerationDraws(draws: seq<PairDraw>, populationSize: nat, numAssets: nat)
  {
    && |draws| == Pairs(populationSize)
    && forall k :: 0 <= k < |draws| ==> ValidDraw(draws[k], populationSize, numAssets)
  }

  /**
   * `createOffspring` breeds at least `populationSize` children, so the merged pool has more
   * than `populationSize` members whenever the population is not empty.
   */
  lemma MergedPoolExceedsPopulation(pop: seq<Genome>, populationSize: nat, numAssets: nat,
                                    draws: seq<PairDraw>, renormalize: Genome -> Genome)
    requires |pop| == populationSize && Uniform(pop, numAssets)
    requires ValidGenerationDraws(draws, populationSize, numAssets)
    requires forall h: Genome :: |renormalize(h)| == |h|
    requires CreateOffspring(pop, populationSize, numAssets, draws, renormalize).Ok?
    ensures var offspring := CreateOffspring(pop, populationSize, numAssets, draws, renormalize).value;
      |pop + offspring| >= 2 * populationSize
      && (populationSize > 0 ==> |pop + offspring| > populationSize)
  {
  }

  /**
   * One generation: `createOffspring`, `addAll`, `selectNextGeneration`. It fails only when a
   * crossover meets genomes without genes, or when NSGA-II selects from an empty pool.
   */
  function Generation(strategy: Strategy, pop: seq<Genome>, populationSize: nat, numAssets: nat,
                      draws: seq<PairDraw>, renormalize: Genome -> Genome): (r: Result<seq<Genome>>)
    requires |pop| == populationSize && Uniform(pop, numAssets)
    requires ValidGenerationDraws(draws, populationSize, numAssets)
    requires forall h: Genome :: |renormalize(h)| == |h|
    ensures r.Ok? <==> (numAssets > 0 || !SomeCross(draws)) && (strategy.Scalar? || populationSize > 0)
    ensures r.Ok? ==> |r.value| == populationSize && Uniform(r.value, numAssets)
  {
    match CreateOffspring(pop, populationSize, numAssets, draws, renormalize)
    case Err(e) => Err(e)
    case Ok(offspring) =>
      var pool := pop + offspring;
      var r := SelectSurvivors(strategy, pool, populationSize);
      if r.Ok? then
        UniformMembers(pop, offspring, r.value, numAssets);
        r
      else r
  }

  /** No generation of a run can fail: every crossover has genes to cut, and NSGA-II has a population. */
  predicate RunSucceeds(strategy: Strategy, populationSize: nat, numAssets: nat, draws: seq<seq<PairDraw>>)
  {
    && (forall g :: 0 <= g < |draws| ==> numAssets > 0 || !SomeCross(draws[g]))
    && (|draws| == 0 || strategy.Scalar? || populationSize > 0)
  }

  /** A run succeeds exactly when its first generation and the rest of the run do. */
  lemma RunSucceedsStep(strategy: Strategy, populationSize: nat, numAssets: nat, draws: seq<seq<PairDraw>>)
    requires |draws| > 0
    ensures RunSucceeds(strategy, populationSize, numAssets, draws)
        <==> && (numAssets > 0 || !SomeCross(draws[0]))
             && (strategy.Scalar? || populationSize > 0)
             && RunSucceeds(strategy, populationSize, numAssets, draws[1..])
  {
    assert forall g :: 1 <= g < |draws| ==> draws[g] == draws[1..][g - 1];
  }

  /**
   * The generations of `optimize` still to run, one list of draws per generation, from population
   * `pop`. The first failing generation ends the run with its error.
   */
  function Run(strategy: Strategy, pop: seq<Genome>, populationSize: nat, numAssets: nat,
               draws: seq<seq<PairDraw>>, renormalize: Genome -> Genome): (r: Result<seq<Genome>>)
    requires |pop| == populationSize && Uniform(pop, numAssets)
    requires forall g :: 0 <= g < |draws| ==> ValidGenerationDraws(draws[g], populationSize, numAssets)
    requires forall h: Genome :: |renormalize(h)| == |h|
    ensures r.Ok? <==> RunSucceeds(strategy, populationSize, numAssets, draws)
    ensures r.Ok? ==> |r.value| == populationSize && Uniform(r.value, numAssets)
    ensures |draws| == 0 ==> r == Ok(pop)
    decreases |draws|
  {
    if |draws| == 0 then Ok(pop)
    else
      RunSucceedsStep(strategy, populationSize, numAssets, draws);
      assert forall g :: 0 <= g < |draws[1..]| ==> draws[1..][g] == draws[g + 1];
      match Generation(strategy, pop, populationSize, numAssets, draws[0], renormalize)
      case Err(e) => Err(e)
      case Ok(next) =>
        Run(strategy, next, populationSize, numAssets, draws[1..], renormalize)
  }

  /**
   * Java `optimize`: the population after `maxGenerations` generations, each with exactly
   * `populationSize` members of one weight per asset.
   */
  method Optimize(strategy: Strategy, populationSize: nat, maxGenerations: nat, numAssets: nat,
                  initial: seq<Genome>, draws: seq<seq<PairDraw>>, renormalize: Genome -> Genome)
    returns (r: Result<seq<Genome>>)
    requires |initial| == populationSize && Uniform(initial, numAssets)
    requires |draws| == maxGenerations
    requires forall g :: 0 <= g < |draws| ==> ValidGenerationDraws(draws[g], populationSize, numAssets)
    requires forall h: Genome :: |renormalize(h)| == |h|
    ensures r == Run(strategy, initial, populationSize, numAssets, draws, renormalize)
    ensures r.Ok? ==> |r.value| == populationSize && Uniform(r.value, numAssets)
    ensures maxGenerations == 0 ==> r == Ok(initial)
    ensures numAssets > 0 && (strategy.Scalar? || populationSize > 0) ==> r.Ok?
    ensures strategy.Nsga? && populationSize == 0 && maxGenerations > 0 ==> r.Err?
  {
    var population := initial;
    var generation := 0;
    while generation < maxGenerations
      invariant generation <= maxGenerations
      invariant |population| == populationSize && Uniform(population, numAssets)
      invariant Run(strategy, initial, populationSize, numAssets, draws, renormalize)
             == Run(strategy, population, populationSize, numAssets, draws[generation..], renormalize)
    {
      var rest := draws[generation..];
      assert rest[0] == draws[generation] && rest[1..] == draws[generation + 1..];
      var next := Generation(strategy, population, populationSize, numAssets, draws[generation], renormalize);
      if next.Err? {
        return next;
      }
      population := next.value;
      generation := generation + 1;
    }
    assert draws[generation..] == [];
    return Ok(population);
  }
}
