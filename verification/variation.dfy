/**
 * The variation operators shared by both algorithms (`crossover`, the gene-reset part of
 * `mutate`, `createOffspring` in NSGAII.java and GeneticAlgorithm.java), with every random draw
 * turned into an explicit parameter.
 */
module Variation {
  import opened Wrappers

  /** A portfolio: one weight per asset. */
  type Genome = seq<real>

  /**
   * Single-point crossover. `cross` is the outcome of `nextDouble() < crossoverRate` and `cut`
   * the outcome of `nextInt(length)`, which throws for a zero length.
   */
  function Crossover<T>(cross: bool, cut: nat, p1: seq<T>, p2: seq<T>): (r: Result<(seq<T>, seq<T>)>)
    requires |p1| == |p2|
    requires cross && |p1| > 0 ==> cut < |p1|
    ensures r.Err? <==> cross && |p1| == 0
    ensures r.Err? ==> r.error == IllegalArgument
    ensures r.Ok? ==> |r.value.0| == |p1| && |r.value.1| == |p2|
    ensures r.Ok? && cross ==> forall j :: 0 <= j < |p1| ==>
      if j < cut then r.value.0[j] == p1[j] && r.value.1[j] == p2[j]
      else r.value.0[j] == p2[j] && r.value.1[j] == p1[j]
    ensures r.Ok? && !cross ==> r.value.0 == p1 && r.value.1 == p2
  {
    if !cross then Ok((p1, p2))
    else if |p1| == 0 then Err(IllegalArgument)
    else Ok((p1[..cut] + p2[cut..], p2[..cut] + p1[cut..]))
  }

  /** At every position the two children hold the two parents' genes, in one order or the other. */
  lemma CrossoverKeepsGenesInPlace<T>(cross: bool, cut: nat, p1: seq<T>, p2: seq<T>, j: nat)
    requires |p1| == |p2|
    requires cross && |p1| > 0 ==> cut < |p1|
    requires Crossover(cross, cut, p1, p2).Ok?
    requires j < |p1|
    ensures var (c1, c2) := Crossover(cross, cut, p1, p2).value;
      multiset{c1[j], c2[j]} == multiset{p1[j], p2[j]}
  {
  }

  /** Crossing the children again with the same draws gives back the parents. */
  lemma CrossoverInvolution<T>(cross: bool, cut: nat, p1: seq<T>, p2: seq<T>)
    requires |p1| == |p2|
    requires cross && |p1| > 0 ==> cut < |p1|
    requires Crossover(cross, cut, p1, p2).Ok?
    ensures var (c1, c2) := Crossover(cross, cut, p1, p2).value;
      Crossover(cross, cut, c1, c2) == Ok((p1, p2))
  {
    if cross {
      var (c1, c2) := Crossover(cross, cut, p1, p2).value;
      assert c1[..cut] + c2[cut..] == p1;
      assert c2[..cut] + c1[cut..] == p2;
    }
  }

  /** Crossover only redistributes genes: the children together hold exactly the parents' genes. */
  lemma CrossoverPreservesGenePool<T>(cross: bool, cut: nat, p1: seq<T>, p2: seq<T>)
    requires |p1| == |p2|
    requires cross && |p1| > 0 ==> cut < |p1|
    requires Crossover(cross, cut, p1, p2).Ok?
    ensures var (c1, c2) := Crossover(cross, cut, p1, p2).value;
      multiset(c1) + multiset(c2) == multiset(p1) + multiset(p2)
  {
    if cross {
      assert p1 == p1[..cut] + p1[cut..];
      assert p2 == p2[..cut] + p2[cut..];
    }
  }

  /**
   * The array loops of Java `crossover`: the children are freshly allocated, zero-filled arrays
   * and the parents, which the method has no licence to modify, stay as they were.
   */
  method CrossoverArrays(cross: bool, cut: nat, parent1: array<real>, parent2: array<real>)
    returns (r: Result<(Genome, Genome)>)
    requires parent1.Length == parent2.Length
    requires cross && parent1.Length > 0 ==> cut < parent1.Length
    ensures r == Crossover(cross, cut, parent1[..], parent2[..])
  {
    if !cross {
      // System.arraycopy of each whole parent
      return Ok((parent1[..], parent2[..]));
    }
    if parent1.Length == 0 {
      return Err(IllegalArgument);
    }
    var child1 := new real[parent1.Length];
    var child2 := new real[parent2.Length];
    var i := 0;
    while i < cut
      invariant 0 <= i <= cut
      invariant forall k :: 0 <= k < i ==> child1[k] == parent1[k] && child2[k] == parent2[k]
    {
      child1[i] := parent1[i];
      child2[i] := parent2[i];
      i := i + 1;
    }
    i := cut;
    while i < parent1.Length
      invariant cut <= i <= parent1.Length
      invariant forall k :: 0 <= k < cut ==> child1[k] == parent1[k] && child2[k] == parent2[k]
      invariant forall k :: cut <= k < i ==> child1[k] == parent2[k] && child2[k] == parent1[k]
    {
      child1[i] := parent2[i];
      child2[i] := parent1[i];
      i := i + 1;
    }
    assert child1[..] == parent1[..cut] + parent2[cut..];
    assert child2[..] == parent2[..cut] + parent1[cut..];
    r := Ok((child1[..], child2[..]));
  }

  /**
   * The gene-reset loop of Java `mutate`: `resets[i]` is `Some(v)` when `nextDouble() <
   * mutationRate` held for gene i and `v` is the fresh `nextDouble()` drawn for it.
   */
  function ResetGenes(g: Genome, resets: seq<Option<real>>): (r: Genome)
    requires |resets| == |g|
    ensures |r| == |g|
    ensures forall i :: 0 <= i < |g| && resets[i].None? ==> r[i] == g[i]
    ensures forall i :: 0 <= i < |g| && resets[i].Some? ==> r[i] == resets[i].value
  {
    seq(|g|, i requires 0 <= i < |g| => if resets[i].Some? then resets[i].value else g[i])
  }

  /**
   * The gene-reset loop of Java `mutate` as written: the genome array is updated in place, gene
   * by gene, and ends up as `ResetGenes` of what it held before.
   */
  method ResetGenesInPlace(individual: array<real>, resets: seq<Option<real>>)
    requires |resets| == individual.Length
    modifies individual
    ensures individual[..] == ResetGenes(old(individual[..]), resets)
  {
    ghost var g := individual[..];
    ghost var target := ResetGenes(g, resets);
    var i := 0;
    while i < individual.Length
      invariant 0 <= i <= individual.Length
      invariant forall k :: 0 <= k < i ==> individual[k] == target[k]
      invariant forall k :: i <= k < individual.Length ==> individual[k] == g[k]
    {
      if resets[i].Some? {
        individual[i] := resets[i].value;
      }
      i := i + 1;
    }
    assert individual[..] == target;
  }

  /** With no gene drawn for reset (mutation rate 0) the loop leaves the genome as it was. */
  lemma NoResetKeepsGenome(g: Genome, resets: seq<Option<real>>)
    requires |resets| == |g|
    requires forall i :: 0 <= i < |resets| ==> resets[i].None?
    ensures ResetGenes(g, resets) == g
  {
  }

  /**
   * Java `mutate`: reset genes, then renormalise. Renormalisation divides by a floating-point
   * sum and is a parameter here; the model only relies on it keeping the length.
   */
  function Mutate(g: Genome, resets: seq<Option<real>>, renormalize: Genome -> Genome): (r: Genome)
    requires |resets| == |g|
    requires forall h: Genome :: |renormalize(h)| == |h|
    ensures |r| == |g|
  {
    renormalize(ResetGenes(g, resets))
  }

  /** The random draws of one iteration of the `createOffspring` loop. */
  datatype PairDraw = PairDraw(
    parent1: nat,                      // nextInt(populationSize)
    parent2: nat,                      // nextInt(populationSize)
    cross: bool,                       // nextDouble() < crossoverRate
    cut: nat,                          // nextInt(numAssets), used only when `cross`
    mutation1: seq<Option<real>>,      // gene resets of the first child
    mutation2: seq<Option<real>>)      // gene resets of the second child

  /** Draws that `java.util.Random` can produce for a population of the given size. */
  predicate ValidDraw(d: PairDraw, populationSize: nat, numAssets: nat)
  {
    && d.parent1 < populationSize
    && d.parent2 < populationSize
    && (d.cross && numAssets > 0 ==> d.cut < numAssets)
    && |d.mutation1| == numAssets
    && |d.mutation2| == numAssets
    && (forall i :: 0 <= i < |d.mutation1| && d.mutation1[i].Some? ==> 0.0 <= d.mutation1[i].value < 1.0)
    && (forall i :: 0 <= i < |d.mutation2| && d.mutation2[i].Some? ==> 0.0 <= d.mutation2[i].value < 1.0)
  }

  /** Every genome has one weight per asset. */
  predicate Uniform(pop: seq<Genome>, numAssets: nat)
  {
    forall i :: 0 <= i < |pop| ==> |pop[i]| == numAssets
  }

  /** A list drawn from two uniform lists is uniform. */
  lemma UniformMembers(a: seq<Genome>, b: seq<Genome>, r: seq<Genome>, numAssets: nat)
    requires Uniform(a, numAssets) && Uniform(b, numAssets)
    requires forall k :: 0 <= k < |r| ==> r[k] in a + b
    ensures Uniform(r, numAssets)
  {
    forall k | 0 <= k < |r|
      ensures |r[k]| == numAssets
    {
      var j :| 0 <= j < |a + b| && (a + b)[j] == r[k];
      if j >= |a| {
        assert (a + b)[j] == b[j - |a|];
      }
    }
  }

  /** Iterations of `for (int i = 0; i < populationSize; i += 2)`: one per pair of children. */
  function Pairs(populationSize: nat): nat
  {
    (populationSize + 1) / 2
  }

  /** Some draw asks for a crossover, which throws when genomes have no genes. */
  predicate SomeCross(draws: seq<PairDraw>)
  {
    exists k :: 0 <= k < |draws| && draws[k].cross
  }

  /** The children of the remaining loop iterations, two per draw, in draw order. */
  function Breed(pop: seq<Genome>, numAssets: nat, draws: seq<PairDraw>, renormalize: Genome -> Genome)
    : (r: Result<seq<Genome>>)
    requires Uniform(pop, numAssets)
    requires forall k :: 0 <= k < |draws| ==> ValidDraw(draws[k], |pop|, numAssets)
    requires forall h: Genome :: |renormalize(h)| == |h|
    ensures r.Ok? <==> numAssets > 0 || !SomeCross(draws)
    ensures r.Ok? ==> |r.value| == 2 * |draws| && Uniform(r.value, numAssets)
  {
    if |draws| == 0 then Ok([])
    else
      var d := draws[0];
      assert ValidDraw(d, |pop|, numAssets);
      assert SomeCross(draws) <==> d.cross || SomeCross(draws[1..]) by {
        if SomeCross(draws) && !d.cross {
          var k :| 0 <= k < |draws| && draws[k].cross;
          assert draws[1..][k - 1].cross;
        }
        if SomeCross(draws[1..]) {
          var k :| 0 <= k < |draws[1..]| && draws[1..][k].cross;
          assert draws[k + 1].cross;
        }
      }
      match Crossover(d.cross, d.cut, pop[d.parent1], pop[d.parent2])
      case Err(e) => Err(e)
      case Ok((c1, c2)) =>
        match Breed(pop, numAssets, draws[1..], renormalize)
        case Err(e) => Err(e)
        case Ok(rest) =>
          Ok([Mutate(c1, d.mutation1, renormalize), Mutate(c2, d.mutation2, renormalize)] + rest)
  }

  /**
   * Java `createOffspring`: one pair of children per loop iteration, so an even number of
   * children, 2 * ceil(populationSize / 2) in all.
   */
  function CreateOffspring(pop: seq<Genome>, populationSize: nat, numAssets: nat, draws: seq<PairDraw>,
                           renormalize: Genome -> Genome): (r: Result<seq<Genome>>)
    requires |pop| == populationSize
    requires Uniform(pop, numAssets)
    requires |draws| == Pairs(populationSize)
    requires forall k :: 0 <= k < |draws| ==> ValidDraw(draws[k], populationSize, numAssets)
    requires forall h: Genome :: |renormalize(h)| == |h|
    ensures r.Ok? <==> numAssets > 0 || !SomeCross(draws)
    ensures r.Ok? ==> |r.value| % 2 == 0 && populationSize <= |r.value| <= populationSize + 1
    ensures r.Ok? ==> Uniform(r.value, numAssets)
  {
    Breed(pop, numAssets, draws, renormalize)
  }
}
