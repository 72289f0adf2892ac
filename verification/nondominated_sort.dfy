/**
 * Fast non-dominated sorting (NSGAII.java `fastNonDominatedSort`): the pool is peeled into
 * fronts, each front being the members that nothing left in the pool dominates.
 */
module NonDominatedSort {
  import opened Pareto
  import opened Seqs

  /** The members of `s` that no member of `ref` dominates, in their order in `s`. */
  function KeepUndominated(fit: Id -> Objectives, ref: seq<Id>, s: seq<Id>): (f: seq<Id>)
    ensures |f| <= |s|
  {
    if |s| == 0 then []
    else (if DominatedIn(fit, ref, s[0]) then [] else [s[0]]) + KeepUndominated(fit, ref, s[1..])
  }

  /** `KeepUndominated` keeps exactly the members of `s` that nothing in `ref` dominates. */
  lemma {:induction false} KeepUndominatedMembers(fit: Id -> Objectives, ref: seq<Id>, s: seq<Id>)
    ensures forall x :: x in KeepUndominated(fit, ref, s) <==> x in s && !DominatedIn(fit, ref, x)
  {
    if |s| > 0 {
      KeepUndominatedMembers(fit, ref, s[1..]);
      assert s == [s[0]] + s[1..];
    }
  }

  /**
   * One round of the nested loops: the members of `s` that no member of `s` dominates.
   * Each member is also compared with itself, which is harmless because dominance is irreflexive.
   */
  function Front(fit: Id -> Objectives, s: seq<Id>): (f: seq<Id>)
    ensures forall x :: x in f <==> x in s && !DominatedIn(fit, s, x)
    ensures |s| > 0 ==> |f| > 0
  {
    if |s| == 0 then []
    else
      NonDominatedExists(fit, s);
      KeepUndominatedMembers(fit, s, s);
      KeepUndominated(fit, s, s)
  }

  /** Java `remaining.removeAll(front)`: every occurrence of every member of `f` is dropped. */
  function RemoveAll(s: seq<Id>, f: seq<Id>): (r: seq<Id>)
    ensures forall x :: x in r <==> x in s && x !in f
  {
    if |s| == 0 then []
    else (if s[0] in f then [] else [s[0]]) + RemoveAll(s[1..], f)
  }

  /** Keeping the undominated members and removing the front split the pool without loss. */
  lemma {:induction false} SplitByFront(fit: Id -> Objectives, ref: seq<Id>, s: seq<Id>, f: seq<Id>)
    requires forall x :: x in s ==> (x in f <==> !DominatedIn(fit, ref, x))
    ensures multiset(KeepUndominated(fit, ref, s)) + multiset(RemoveAll(s, f)) == multiset(s)
  {
    if |s| > 0 {
      SplitByFront(fit, ref, s[1..], f);
      KeepRemoveUnfold(fit, ref, s, f);
    }
  }

  /** The first step of `KeepUndominated` and `RemoveAll`, counted as multisets. */
  lemma KeepRemoveUnfold(fit: Id -> Objectives, ref: seq<Id>, s: seq<Id>, f: seq<Id>)
    requires |s| > 0
    requires s[0] in f <==> !DominatedIn(fit, ref, s[0])
    ensures multiset(s) == multiset{s[0]} + multiset(s[1..])
    ensures multiset(KeepUndominated(fit, ref, s)) + multiset(RemoveAll(s, f))
         == multiset{s[0]} + multiset(KeepUndominated(fit, ref, s[1..])) + multiset(RemoveAll(s[1..], f))
  {
    assert s == [s[0]] + s[1..];
  }

  /** The rounds of the `while (!remaining.isEmpty())` loop, starting from `remaining`. */
  function Peel(fit: Id -> Objectives, remaining: seq<Id>): seq<seq<Id>>
    decreases |remaining|
  {
    if |remaining| == 0 then []
    else
      var f := Front(fit, remaining);
      var rest := RemoveAll(remaining, f);
      SplitByFront(fit, remaining, remaining, f);
      assert |rest| < |remaining| by {
        assert |multiset(f)| + |multiset(rest)| == |multiset(remaining)|;
      }
      [f] + Peel(fit, rest)
  }

  /**
   * Java `fastNonDominatedSort`: front 0 is taken from the whole pool and always added, even
   * when the pool is empty; later fronts are peeled from what remains until nothing does.
   */
  function FastNonDominatedSort(fit: Id -> Objectives, pool: seq<Id>): (fronts: seq<seq<Id>>)
    ensures |fronts| > 0
  {
    var front := Front(fit, pool);
    [front] + Peel(fit, RemoveAll(pool, front))
  }

  /** Front 0 holds exactly the members of the pool that no member of the pool dominates. */
  lemma FirstFrontUndominated(fit: Id -> Objectives, pool: seq<Id>)
    ensures forall x :: x in FastNonDominatedSort(fit, pool)[0] <==> x in pool && !DominatedIn(fit, pool, x)
  {
    assert FastNonDominatedSort(fit, pool)[0] == Front(fit, pool);
  }

  // ---------------------------------------------------------------------------------------
  // Facts about the peeling rounds

  /** One round of peeling: the front and the rest split what remains, and the rest is smaller. */
  lemma PeelStep(fit: Id -> Objectives, rem: seq<Id>)
    requires |rem| > 0
    ensures var f := Front(fit, rem);
      var rest := RemoveAll(rem, f);
      && multiset(f) + multiset(rest) == multiset(rem)
      && |rest| < |rem|
      && Peel(fit, rem) == [f] + Peel(fit, rest)
  {
    var f := Front(fit, rem);
    SplitByFront(fit, rem, rem, f);
    assert |multiset(f)| + |multiset(RemoveAll(rem, f))| == |multiset(rem)|;
  }

  lemma {:induction false} PeelPartition(fit: Id -> Objectives, rem: seq<Id>)
    ensures multiset(Flatten(Peel(fit, rem))) == multiset(rem)
    decreases |rem|
  {
    if |rem| > 0 {
      var f := Front(fit, rem);
      var rest := RemoveAll(rem, f);
      var p := Peel(fit, rem);
      PeelStep(fit, rem);
      assert p[0] == f;
      assert p[1..] == Peel(fit, rest);
      PeelPartition(fit, rest);
    }
  }

  lemma SameMembersOfPeel(fit: Id -> Objectives, rem: seq<Id>)
    ensures forall x :: x in Flatten(Peel(fit, rem)) <==> x in rem
  {
    PeelPartition(fit, rem);
    forall x
      ensures x in Flatten(Peel(fit, rem)) <==> x in rem
    {
      assert x in Flatten(Peel(fit, rem)) <==> x in multiset(Flatten(Peel(fit, rem)));
    }
  }

  lemma {:induction false} PeelNonEmpty(fit: Id -> Objectives, rem: seq<Id>, k: nat)
    requires k < |Peel(fit, rem)|
    ensures |Peel(fit, rem)[k]| > 0
    decreases |rem|
  {
    if k == 0 {
      PeelStep(fit, rem);
    } else {
      PeelShift(fit, rem, k);
      PeelNonEmpty(fit, RemoveAll(rem, Front(fit, rem)), k - 1);
    }
  }

  /** Rounds after the first are the rounds of peeling what the first round leaves. */
  lemma PeelShift(fit: Id -> Objectives, rem: seq<Id>, k: nat)
    requires 0 < k < |Peel(fit, rem)|
    ensures |rem| > 0
    ensures |RemoveAll(rem, Front(fit, rem))| < |rem|
    ensures var q := Peel(fit, RemoveAll(rem, Front(fit, rem)));
      && k - 1 < |q|
      && Peel(fit, rem)[k] == q[k - 1]
      && Peel(fit, rem)[k..] == q[k - 1..]
      && Peel(fit, rem)[k + 1..] == q[k..]
  {
    assert |rem| > 0;
    PeelStep(fit, rem);
    var p := Peel(fit, rem);
    var q := Peel(fit, RemoveAll(rem, Front(fit, rem)));
    assert p[1..] == q;
    assert p[k..] == p[1..][k - 1..];
    assert p[k + 1..] == p[1..][k..];
  }

  lemma PeelHeadCharacterization(fit: Id -> Objectives, rem: seq<Id>, x: Id)
    requires |rem| > 0
    ensures var p := Peel(fit, rem);
      x in p[0] <==> x in Flatten(p) && !DominatedIn(fit, Flatten(p), x)
  {
    var p := Peel(fit, rem);
    PeelStep(fit, rem);
    SameMembersOfPeel(fit, rem);
    DominatedInSameMembers(fit, Flatten(p), rem, x);
  }

  /** Round k keeps exactly the members of what is left that nothing left dominates. */
  lemma {:induction false} PeelCharacterization(fit: Id -> Objectives, rem: seq<Id>, k: nat, x: Id)
    requires k < |Peel(fit, rem)|
    ensures var p := Peel(fit, rem);
      x in p[k] <==> x in Flatten(p[k..]) && !DominatedIn(fit, Flatten(p[k..]), x)
    decreases |rem|
  {
    var p := Peel(fit, rem);
    if k == 0 {
      assert p[0..] == p;
      PeelHeadCharacterization(fit, rem, x);
    } else {
      PeelShift(fit, rem, k);
      PeelCharacterization(fit, RemoveAll(rem, Front(fit, rem)), k - 1, x);
    }
  }

  lemma PeelHeadDisjoint(fit: Id -> Objectives, rem: seq<Id>, x: Id)
    requires |rem| > 0
    requires x in Peel(fit, rem)[0]
    ensures x !in Flatten(Peel(fit, rem)[1..])
  {
    var rest := RemoveAll(rem, Front(fit, rem));
    PeelStep(fit, rem);
    assert Peel(fit, rem)[1..] == Peel(fit, rest);
    SameMembersOfPeel(fit, rest);
  }

  /** A member of round k never reappears in a later round. */
  lemma {:induction false} PeelDisjoint(fit: Id -> Objectives, rem: seq<Id>, k: nat, x: Id)
    requires k < |Peel(fit, rem)|
    requires x in Peel(fit, rem)[k]
    ensures x !in Flatten(Peel(fit, rem)[k + 1..])
    decreases |rem|
  {
    var p := Peel(fit, rem);
    if k == 0 {
      PeelHeadDisjoint(fit, rem, x);
    } else {
      PeelShift(fit, rem, k);
      PeelDisjoint(fit, RemoveAll(rem, Front(fit, rem)), k - 1, x);
    }
  }

  /** For a non-empty pool the sort is exactly the peeling of the whole pool. */
  lemma SortIsPeel(fit: Id -> Objectives, pool: seq<Id>)
    requires |pool| > 0
    ensures FastNonDominatedSort(fit, pool) == Peel(fit, pool)
  {
  }

  // ---------------------------------------------------------------------------------------
  // Properties of the sort

  /** An empty pool yields one empty front; otherwise every front is non-empty. */
  lemma FrontsNonEmpty(fit: Id -> Objectives, pool: seq<Id>)
    ensures var fronts := FastNonDominatedSort(fit, pool);
      (forall k :: 0 <= k < |fronts| ==> |fronts[k]| > 0) <==> |pool| > 0
    ensures |pool| == 0 ==> FastNonDominatedSort(fit, pool) == [[]]
  {
    var fronts := FastNonDominatedSort(fit, pool);
    if |pool| > 0 {
      SortIsPeel(fit, pool);
      forall k | 0 <= k < |fronts|
        ensures |fronts[k]| > 0
      {
        PeelNonEmpty(fit, pool, k);
      }
    } else {
      assert RemoveAll(pool, Front(fit, pool)) == [];
      assert fronts == [[]] + Peel(fit, []);
      assert |fronts[0]| == 0;
    }
  }

  /** The fronts hold the members of the pool, each occurrence exactly once. */
  lemma FrontsPartitionPool(fit: Id -> Objectives, pool: seq<Id>)
    ensures multiset(Flatten(FastNonDominatedSort(fit, pool))) == multiset(pool)
  {
    if |pool| > 0 {
      SortIsPeel(fit, pool);
      PeelPartition(fit, pool);
    } else {
      FrontsNonEmpty(fit, pool);
      FlattenSingle<Id>([]);
    }
  }

  /** No member lands in two fronts. */
  lemma FrontsDisjoint(fit: Id -> Objectives, pool: seq<Id>, j: nat, k: nat, x: Id)
    requires j < k < |FastNonDominatedSort(fit, pool)|
    ensures !(x in FastNonDominatedSort(fit, pool)[j] && x in FastNonDominatedSort(fit, pool)[k])
  {
    var fronts := FastNonDominatedSort(fit, pool);
    if |pool| == 0 {
      FrontsNonEmpty(fit, pool);
    } else if x in fronts[j] {
      SortIsPeel(fit, pool);
      PeelDisjoint(fit, pool, j, x);
      if x in fronts[k] {
        FlattenHeadMember(fronts, k, x);
        FlattenSuffixMember(fronts, j + 1, k, x);
        assert false;
      }
    }
  }

  /**
   * Front k is exactly the set of members of fronts k, k+1, ... (the `remaining` list of
   * `fastNonDominatedSort`) that no member of those fronts dominates.
   */
  lemma FrontIsUndominatedRemainder(fit: Id -> Objectives, pool: seq<Id>, k: nat, x: Id)
    requires k < |FastNonDominatedSort(fit, pool)|
    ensures var fronts := FastNonDominatedSort(fit, pool);
      x in fronts[k] <==> x in Flatten(fronts[k..]) && !DominatedIn(fit, Flatten(fronts[k..]), x)
  {
    var fronts := FastNonDominatedSort(fit, pool);
    if |pool| == 0 {
      FrontsNonEmpty(fit, pool);
      assert fronts[k..] == [[]];
      FlattenSingle<Id>([]);
    } else {
      SortIsPeel(fit, pool);
      PeelCharacterization(fit, pool, k, x);
    }
  }

  /** No member of a later front dominates a member of an earlier front. */
  lemma LaterFrontsDoNotDominate(fit: Id -> Objectives, pool: seq<Id>, j: nat, k: nat, x: Id, y: Id)
    requires j < k < |FastNonDominatedSort(fit, pool)|
    requires x in FastNonDominatedSort(fit, pool)[j]
    requires y in FastNonDominatedSort(fit, pool)[k]
    ensures !Dominates(fit(y), fit(x))
  {
    var fronts := FastNonDominatedSort(fit, pool);
    FrontIsUndominatedRemainder(fit, pool, j, x);
    FlattenHeadMember(fronts, k, y);
    FlattenSuffixMember(fronts, j, k, y);
  }

  /** Every member of front k+1 is dominated by some member of front k. */
  lemma DominatedByPreviousFront(fit: Id -> Objectives, pool: seq<Id>, k: nat, y: Id)
    requires k + 1 < |FastNonDominatedSort(fit, pool)|
    requires y in FastNonDominatedSort(fit, pool)[k + 1]
    ensures exists x :: x in FastNonDominatedSort(fit, pool)[k] && Dominates(fit(x), fit(y))
  {
    var fronts := FastNonDominatedSort(fit, pool);
    var rest := Flatten(fronts[k..]);
    FlattenHeadMember(fronts, k + 1, y);
    FlattenSuffixMember(fronts, k, k + 1, y);
    FrontsDisjoint(fit, pool, k, k + 1, y);
    FrontIsUndominatedRemainder(fit, pool, k, y);
    UndominatedDominatorExists(fit, rest, y);
    var m :| m in rest && !DominatedIn(fit, rest, m) && Dominates(fit(m), fit(y));
    FrontIsUndominatedRemainder(fit, pool, k, m);
  }

  /** Every member of the pool lies in some front (the partition, read member-wise). */
  lemma EveryMemberHasFront(fit: Id -> Objectives, pool: seq<Id>, x: Id)
    requires x in pool
    ensures exists k :: 0 <= k < |FastNonDominatedSort(fit, pool)| && x in FastNonDominatedSort(fit, pool)[k]
  {
    var fronts := FastNonDominatedSort(fit, pool);
    FrontsPartitionPool(fit, pool);
    assert x in multiset(Flatten(fronts));
    FlattenMember(fronts, x);
  }

  lemma RemoveAllCovered(s: seq<Id>, f: seq<Id>)
    requires forall x :: x in s ==> x in f
    ensures RemoveAll(s, f) == []
  {
  }

  lemma KeepAllUndominated(fit: Id -> Objectives, ref: seq<Id>, s: seq<Id>)
    requires forall x :: x in s ==> !DominatedIn(fit, ref, x)
    ensures KeepUndominated(fit, ref, s) == s
  {
  }

  /** When all members share one objective pair, the sort yields a single front: the pool itself. */
  lemma IdenticalObjectivesSingleFront(fit: Id -> Objectives, pool: seq<Id>)
    requires forall x, y :: x in pool && y in pool ==> fit(x) == fit(y)
    ensures FastNonDominatedSort(fit, pool) == [pool]
  {
    if |pool| == 0 {
      FrontsNonEmpty(fit, pool);
    } else {
      KeepAllUndominated(fit, pool, pool);
      RemoveAllCovered(pool, pool);
    }
  }

  // ---------------------------------------------------------------------------------------
  // The loops of `fastNonDominatedSort`, shown to compute the fronts defined above

  lemma {:induction false} KeepUndominatedSnoc(fit: Id -> Objectives, ref: seq<Id>, s: seq<Id>, x: Id)
    ensures KeepUndominated(fit, ref, s + [x])
         == KeepUndominated(fit, ref, s) + (if DominatedIn(fit, ref, x) then [] else [x])
  {
    var tail := if DominatedIn(fit, ref, x) then [] else [x];
    if |s| > 0 {
      var head := if DominatedIn(fit, ref, s[0]) then [] else [s[0]];
      assert (s + [x])[0] == s[0] && (s + [x])[1..] == s[1..] + [x];
      KeepUndominatedSnoc(fit, ref, s[1..], x);
      calc {
        KeepUndominated(fit, ref, s + [x]);
        head + KeepUndominated(fit, ref, s[1..] + [x]);
        head + (KeepUndominated(fit, ref, s[1..]) + tail);
        (head + KeepUndominated(fit, ref, s[1..])) + tail;
        KeepUndominated(fit, ref, s) + tail;
      }
    } else {
      assert [x][1..] == [];
      assert s + [x] == [x];
    }
  }

  /** One round of the `while` loop moves a front from the peeling still to come to those done. */
  lemma PeelRound(fit: Id -> Objectives, done: seq<seq<Id>>, rem: seq<Id>)
    requires |rem| > 0
    ensures |RemoveAll(rem, Front(fit, rem))| < |rem|
    ensures done + Peel(fit, rem) == (done + [Front(fit, rem)]) + Peel(fit, RemoveAll(rem, Front(fit, rem)))
  {
    PeelStep(fit, rem);
    var f := Front(fit, rem);
    var later := Peel(fit, RemoveAll(rem, f));
    assert done + ([f] + later) == (done + [f]) + later;
  }

  /** The inner `for (other : ...)` loop: is some member of `others` dominating `x`? Stops at the first. */
  method IsDominated(fit: Id -> Objectives, others: seq<Id>, x: Id) returns (dominated: bool)
    ensures dominated <==> DominatedIn(fit, others, x)
  {
    dominated := false;
    var j := 0;
    while j < |others|
      invariant 0 <= j <= |others|
      invariant forall k :: 0 <= k < j ==> !Dominates(fit(others[k]), fit(x))
    {
      if Dominates(fit(others[j]), fit(x)) {
        dominated := true;
        break;
      }
      j := j + 1;
    }
  }

  /** The outer `for (individual : ...)` loop: collects, in order, the members nothing in `s` dominates. */
  method FrontLoop(fit: Id -> Objectives, s: seq<Id>) returns (front: seq<Id>)
    ensures front == Front(fit, s)
  {
    front := [];
    var i := 0;
    while i < |s|
      invariant 0 <= i <= |s|
      invariant front == KeepUndominated(fit, s, s[..i])
    {
      var dominated := IsDominated(fit, s, s[i]);
      if !dominated {
        front := front + [s[i]];
      }
      KeepUndominatedSnoc(fit, s, s[..i], s[i]);
      assert s[..i + 1] == s[..i] + [s[i]];
      i := i + 1;
    }
    assert s[..i] == s;
  }

  /**
   * Java `fastNonDominatedSort` as written: front 0, then `while (!remaining.isEmpty())` one
   * more front per round, each removed from `remaining` with `removeAll`.
   */
  method FastNonDominatedSortLoops(fit: Id -> Objectives, population: seq<Id>) returns (fronts: seq<seq<Id>>)
    ensures fronts == FastNonDominatedSort(fit, population)
  {
    var front := FrontLoop(fit, population);
    fronts := [front];
    var remaining := RemoveAll(population, front);
    while |remaining| > 0
      invariant fronts + Peel(fit, remaining) == FastNonDominatedSort(fit, population)
      decreases |remaining|
    {
      var nextFront := FrontLoop(fit, remaining);
      PeelRound(fit, fronts, remaining);
      fronts := fronts + [nextFront];
      remaining := RemoveAll(remaining, nextFront);
    }
    assert fronts + [] == fronts;
  }
}
