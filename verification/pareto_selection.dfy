/**
 * NSGA-II survivor selection (NSGAII.java `selectNextGeneration`): whole fronts are taken in
 * rank order while they fit, and the first front that overflows is sorted by crowding
 * distance and cut to fill the remaining places.
 */
module ParetoSelection {
  import opened Wrappers
  import opened Seqs
  import opened Pareto
  import opened Sorting
  import opened NonDominatedSort

  /**
   * The crowding distance of an individual given all fronts. Its floating-point formula is not
   * modelled; only the order it induces matters here.
   */
  type Distance = (seq<seq<Id>>, Id) -> real

  /** The sort key of the comparator: the crowding distance with respect to `fronts`. */
  function CrowdingKey(distance: Distance, fronts: seq<seq<Id>>): Id -> real
  {
    (x: Id) => distance(fronts, x)
  }

  /**
   * The accumulation loop: `next` holds fronts 0..i-1. It stops at the first front that does
   * not fit, and fails like `fronts.get(i)` when it runs past the last front.
   */
  function Accumulate(fronts: seq<seq<Id>>, i: nat, next: seq<Id>, populationSize: nat)
    : (r: Result<(seq<Id>, nat)>)
    requires i <= |fronts|
    requires next == Flatten(fronts[..i])
    requires |next| <= populationSize
    ensures r.Ok? <==> populationSize < |Flatten(fronts)|
    ensures r.Err? ==> r.error == IndexOutOfBounds
    ensures r.Ok? ==>
      var (taken, stop) := r.value;
      && i <= stop < |fronts|
      && taken == Flatten(fronts[..stop])
      && |taken| <= populationSize < |taken| + |fronts[stop]|
    decreases |fronts| - i
  {
    if i == |fronts| then
      assert fronts[..i] == fronts;
      Err(IndexOutOfBounds)
    else if |next| + |fronts[i]| <= populationSize then
      FlattenSnoc(fronts, i);
      Accumulate(fronts, i + 1, next + fronts[i], populationSize)
    else
      FlattenSnoc(fronts, i);
      FlattenSplit(fronts, i + 1);
      Ok((next, i))
  }

  /**
   * The truncation of `selectNextGeneration` once the fronts are known: accumulate whole
   * fronts, then sort the first front that does not fit by `key` and take what still fits.
   */
  function Truncate(fronts: seq<seq<Id>>, key: Id -> real, populationSize: nat): (r: Result<seq<Id>>)
    ensures r.Ok? <==> populationSize < |Flatten(fronts)|
    ensures r.Err? ==> r.error == IndexOutOfBounds
    ensures r.Ok? ==> |r.value| == populationSize
    ensures r.Ok? ==> multiset(r.value) <= multiset(Flatten(fronts))
  {
    match Accumulate(fronts, 0, [], populationSize)
    case Err(e) => Err(e)
    case Ok((next, i)) =>
      var sorted := SortBy(fronts[i], key);
      var cut := populationSize - |next|;
      PrefixSubMultiset(sorted, cut);
      FlattenSnoc(fronts, i);
      FlattenSplit(fronts, i + 1);
      Ok(next + sorted[..cut])
  }

  /**
   * Java `selectNextGeneration` on a pool of individuals: fails when the pool is no larger than
   * the population (the loop reads past the last front); otherwise returns exactly
   * `populationSize` members of the pool.
   */
  function SelectNextGeneration(fit: Id -> Objectives, distance: Distance, pool: seq<Id>, populationSize: nat)
    : (r: Result<seq<Id>>)
    ensures r.Ok? <==> populationSize < |pool|
    ensures r.Err? ==> r.error == IndexOutOfBounds
    ensures r.Ok? ==> |r.value| == populationSize
    ensures r.Ok? ==> multiset(r.value) <= multiset(pool)
  {
    var fronts := FastNonDominatedSort(fit, pool);
    FrontsPartitionPool(fit, pool);
    assert |Flatten(fronts)| == |multiset(Flatten(fronts))| == |pool|;
    Truncate(fronts, CrowdingKey(distance, fronts), populationSize)
  }

  /** The index at which the accumulation loop stops: the first front that does not fit in full. */
  function CutIndex(fronts: seq<seq<Id>>, populationSize: nat): (i: nat)
    requires populationSize < |Flatten(fronts)|
    ensures i < |fronts|
    ensures |Flatten(fronts[..i])| <= populationSize < |Flatten(fronts[..i])| + |fronts[i]|
  {
    Accumulate(fronts, 0, [], populationSize).value.1
  }

  /** The pool and its fronts hold the same number of members. */
  lemma FrontsSize(fit: Id -> Objectives, pool: seq<Id>)
    ensures |Flatten(FastNonDominatedSort(fit, pool))| == |pool|
  {
    FrontsPartitionPool(fit, pool);
    assert |multiset(Flatten(FastNonDominatedSort(fit, pool)))| == |multiset(pool)|;
  }

  lemma TruncateShape(fronts: seq<seq<Id>>, key: Id -> real, populationSize: nat)
    requires populationSize < |Flatten(fronts)|
    ensures var i := CutIndex(fronts, populationSize);
      var taken := Flatten(fronts[..i]);
      var sorted := SortBy(fronts[i], key);
      && populationSize - |taken| <= |sorted|
      && Truncate(fronts, key, populationSize) == Ok(taken + sorted[..populationSize - |taken|])
  {
    var acc := Accumulate(fronts, 0, [], populationSize);
    var (taken, i) := acc.value;
    assert i == CutIndex(fronts, populationSize);
    assert taken == Flatten(fronts[..i]);
    var sorted := SortBy(fronts[i], key);
    assert Truncate(fronts, key, populationSize) == Ok(taken + sorted[..populationSize - |taken|]);
  }

  /**
   * The next generation is fronts 0..i-1 followed by the lowest-keyed prefix of front i, where
   * i is the first front that does not fit in full.
   */
  lemma NextGenerationShape(fit: Id -> Objectives, distance: Distance, pool: seq<Id>, populationSize: nat)
    requires populationSize < |pool|
    ensures var fronts := FastNonDominatedSort(fit, pool);
      |Flatten(fronts)| == |pool|
      && var i := CutIndex(fronts, populationSize);
      var taken := Flatten(fronts[..i]);
      var sorted := SortBy(fronts[i], CrowdingKey(distance, fronts));
      && populationSize - |taken| <= |sorted|
      && SelectNextGeneration(fit, distance, pool, populationSize)
         == Ok(taken + sorted[..populationSize - |taken|])
  {
    var fronts := FastNonDominatedSort(fit, pool);
    FrontsSize(fit, pool);
    TruncateShape(fronts, CrowdingKey(distance, fronts), populationSize);
  }

  /** A member of the flattened prefix fronts[..i] lies in one of those fronts and in no other. */
  lemma PrefixMemberFront(fit: Id -> Objectives, pool: seq<Id>, i: nat, a: nat, x: Id)
    requires a < |FastNonDominatedSort(fit, pool)| && i <= |FastNonDominatedSort(fit, pool)|
    requires x in FastNonDominatedSort(fit, pool)[a]
    ensures x in Flatten(FastNonDominatedSort(fit, pool)[..i]) <==> a < i
  {
    var fronts := FastNonDominatedSort(fit, pool);
    var pre := fronts[..i];
    FlattenMember(pre, x);
    if a < i {
      assert pre[a] == fronts[a];
    }
    if x in Flatten(pre) {
      var c :| 0 <= c < |pre| && x in pre[c];
      if c != a {
        if c < a { FrontsDisjoint(fit, pool, c, a, x); } else { FrontsDisjoint(fit, pool, a, c, x); }
      }
    }
  }

  /** Keeping fronts 0..i-1 and a prefix of key-sorted front i ranks every kept member first. */
  lemma PrefixOfFrontsKeepsBetter(fit: Id -> Objectives, pool: seq<Id>, key: Id -> real, i: nat, cut: nat,
                                  a: nat, b: nat, x: Id, y: Id)
    requires var fronts := FastNonDominatedSort(fit, pool);
      && i < |fronts| && cut <= |fronts[i]|
      && a < |fronts| && b < |fronts| && x in fronts[a] && y in fronts[b]
    requires var fronts := FastNonDominatedSort(fit, pool);
      var kept := Flatten(fronts[..i]) + SortBy(fronts[i], key)[..cut];
      x in kept && y !in kept
    ensures a <= b
    ensures a == b ==> key(x) <= key(y)
  {
    var fronts := FastNonDominatedSort(fit, pool);
    var taken := Flatten(fronts[..i]);
    var sorted := SortBy(fronts[i], key);
    assert sorted == sorted[..cut] + sorted[cut..];
    PrefixMemberFront(fit, pool, i, a, x);
    PrefixMemberFront(fit, pool, i, b, y);
    // Fronts 0..i-1 are kept whole, so the dropped member is in front i or later, and the kept
    // member is in fronts 0..i-1 or in the kept part of front i.
    if x !in taken {
      assert x in multiset(sorted);
      if a != i {
        if a < i { FrontsDisjoint(fit, pool, a, i, x); } else { FrontsDisjoint(fit, pool, i, a, x); }
      }
    }
    if a == b && a == i {
      assert y in multiset(sorted);
      SortedPrefixBeforeSuffix(sorted, key, cut, x, y);
    }
  }

  /**
   * Elitism of the truncation: a kept member never sits in a worse front than a dropped one,
   * and within the cut front it never has a larger crowding key.
   */
  lemma KeptBeforeDropped(fit: Id -> Objectives, distance: Distance, pool: seq<Id>, populationSize: nat,
                          a: nat, b: nat, x: Id, y: Id)
    requires populationSize < |pool|
    requires var fronts := FastNonDominatedSort(fit, pool);
      a < |fronts| && b < |fronts| && x in fronts[a] && y in fronts[b]
    requires x in SelectNextGeneration(fit, distance, pool, populationSize).value
    requires y !in SelectNextGeneration(fit, distance, pool, populationSize).value
    ensures a <= b
    ensures var key := CrowdingKey(distance, FastNonDominatedSort(fit, pool));
      a == b ==> key(x) <= key(y)
  {
    var fronts := FastNonDominatedSort(fit, pool);
    NextGenerationShape(fit, distance, pool, populationSize);
    var i := CutIndex(fronts, populationSize);
    PrefixOfFrontsKeepsBetter(fit, pool, CrowdingKey(distance, fronts), i,
                              populationSize - |Flatten(fronts[..i])|, a, b, x, y);
  }

  /** The next generation never holds one individual twice when the pool does not. */
  lemma NextGenerationDistinct(fit: Id -> Objectives, distance: Distance, pool: seq<Id>, populationSize: nat)
    requires Distinct(pool)
    requires populationSize < |pool|
    ensures Distinct(SelectNextGeneration(fit, distance, pool, populationSize).value)
  {
    SubMultisetDistinct(SelectNextGeneration(fit, distance, pool, populationSize).value, pool);
  }
}
