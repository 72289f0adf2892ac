/**
 * Survivor selection of the single-objective genetic algorithm (GeneticAlgorithm.java
 * `selectNextGeneration`): sort the pool by descending score and keep the first
 * `populationSize` individuals.
 */
module ScalarSelection {
  import opened Wrappers
  import opened Seqs
  import opened Sorting

  /**
   * The comparator `Double.compare(fitnessScore(b), fitnessScore(a))` orders by descending
   * score, which is ascending order of the negated score.
   */
  function Descending<T>(score: T -> real): T -> real
  {
    x => -score(x)
  }

  /**
   * Java `selectNextGeneration`: `subList(0, populationSize)` of the sorted pool, which fails
   * when the pool is shorter than the population.
   */
  function SelectNextGeneration<T>(score: T -> real, pool: seq<T>, populationSize: nat): (r: Result<seq<T>>)
    ensures r.Ok? <==> populationSize <= |pool|
    ensures r.Err? ==> r.error == IndexOutOfBounds
    ensures r.Ok? ==> |r.value| == populationSize && multiset(r.value) <= multiset(pool)
    ensures r.Ok? ==> forall i, j :: 0 <= i < j < |r.value| ==> score(r.value[i]) >= score(r.value[j])
    ensures r.Ok? ==> forall x, y :: x in r.value && y in multiset(pool) - multiset(r.value) ==> score(y) <= score(x)
  {
    if populationSize <= |pool| then
      var sorted := SortBy(pool, Descending(score));
      SortedPrefixFacts(score, sorted, populationSize);
      Ok(sorted[..populationSize])
    else
      Err(IndexOutOfBounds)
  }

  /** What keeping the first n of a list sorted by descending score means. */
  lemma SortedPrefixFacts<T>(score: T -> real, sorted: seq<T>, n: nat)
    requires SortedBy(sorted, Descending(score))
    requires n <= |sorted|
    ensures multiset(sorted[..n]) <= multiset(sorted)
    ensures forall i, j :: 0 <= i < j < n ==> score(sorted[..n][i]) >= score(sorted[..n][j])
    ensures forall x, y :: x in sorted[..n] && y in multiset(sorted) - multiset(sorted[..n]) ==> score(y) <= score(x)
  {
    PrefixSubMultiset(sorted, n);
    assert sorted == sorted[..n] + sorted[n..];
    assert multiset(sorted) - multiset(sorted[..n]) == multiset(sorted[n..]);
    SortedPrefixBeforeSuffixAll(sorted, Descending(score), n);
    forall i, j | 0 <= i < j < n
      ensures score(sorted[..n][i]) >= score(sorted[..n][j])
    {
      assert Descending(score)(sorted[i]) <= Descending(score)(sorted[j]);
    }
  }

  /** The kept individuals keep their pool order among equal scores (the sort is stable). */
  lemma TiesKeepPoolOrder<T>(score: T -> real, pool: seq<T>, v: real)
    ensures WithKey(SortBy(pool, Descending(score)), Descending(score), -v)
         == WithKey(pool, Descending(score), -v)
  {
    SortByStable(pool, Descending(score), -v);
  }

  /** The survivors never hold one individual twice when the pool does not. */
  lemma SurvivorsDistinct<T>(score: T -> real, pool: seq<T>, populationSize: nat)
    requires Distinct(pool)
    requires populationSize <= |pool|
    ensures Distinct(SelectNextGeneration(score, pool, populationSize).value)
  {
    SubMultisetDistinct(SelectNextGeneration(score, pool, populationSize).value, pool);
  }
}
