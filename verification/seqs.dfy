/** Sequence helpers shared by the selection engine and the orchestrator. */
module Seqs {

  /** Concatenation of a list of lists, in order (Java's repeated `addAll`). */
  function Flatten<T>(ss: seq<seq<T>>): seq<T>
  {
    if |ss| == 0 then [] else ss[0] + Flatten(ss[1..])
  }

  predicate Distinct<T(==)>(s: seq<T>)
  {
    forall i, j :: 0 <= i < j < |s| ==> s[i] != s[j]
  }

  /** The identity list [0, 1, ..., n-1]: the positions of a list of length n. */
  function Indices(n: nat): (r: seq<nat>)
    ensures |r| == n
    ensures forall i :: 0 <= i < n ==> r[i] == i
  {
    seq(n, i => i)
  }

  lemma FlattenAppend<T>(a: seq<seq<T>>, b: seq<seq<T>>)
    ensures Flatten(a + b) == Flatten(a) + Flatten(b)
  {
    if |a| == 0 {
      assert a + b == b;
    } else {
      assert (a + b)[1..] == a[1..] + b;
      FlattenAppend(a[1..], b);
    }
  }

  lemma FlattenSingle<T>(s: seq<T>)
    ensures Flatten([s]) == s
  {
    assert Flatten([s]) == s + Flatten([s][1..]);
  }

  /** Adding the i-th list to the flattening of the first i lists. */
  lemma FlattenSnoc<T>(ss: seq<seq<T>>, i: nat)
    requires i < |ss|
    ensures Flatten(ss[..i + 1]) == Flatten(ss[..i]) + ss[i]
  {
    assert ss[..i + 1] == ss[..i] + [ss[i]];
    FlattenAppend(ss[..i], [ss[i]]);
    FlattenSingle(ss[i]);
  }

  /** The flattening splits at any index into a prefix part and a suffix part. */
  lemma FlattenSplit<T>(ss: seq<seq<T>>, i: nat)
    requires i <= |ss|
    ensures Flatten(ss) == Flatten(ss[..i]) + Flatten(ss[i..])
  {
    assert ss == ss[..i] + ss[i..];
    FlattenAppend(ss[..i], ss[i..]);
  }

  /** An element of the flattening is an element of one of the lists, and conversely. */
  lemma FlattenMember<T>(ss: seq<seq<T>>, x: T)
    ensures x in Flatten(ss) <==> exists k :: 0 <= k < |ss| && x in ss[k]
  {
    if |ss| > 0 {
      FlattenMember(ss[1..], x);
      if x in Flatten(ss[1..]) {
        var k :| 0 <= k < |ss[1..]| && x in ss[1..][k];
        assert x in ss[k + 1];
      }
      if exists k :: 0 <= k < |ss| && x in ss[k] {
        var k :| 0 <= k < |ss| && x in ss[k];
        if k > 0 {
          assert x in ss[1..][k - 1];
        }
      }
    }
  }

  /** A later suffix of a list of lists holds no element the earlier suffix lacks. */
  lemma FlattenSuffixMember<T>(ss: seq<seq<T>>, j: nat, k: nat, x: T)
    requires j <= k <= |ss|
    requires x in Flatten(ss[k..])
    ensures x in Flatten(ss[j..])
  {
    FlattenSplit(ss[j..], k - j);
    assert ss[j..][k - j..] == ss[k..];
  }

  /** Each list is part of the flattening of any suffix that starts at or before it. */
  lemma FlattenHeadMember<T>(ss: seq<seq<T>>, k: nat, x: T)
    requires k < |ss|
    requires x in ss[k]
    ensures x in Flatten(ss[k..])
  {
    assert ss[k..][0] == ss[k];
  }

  lemma DistinctCount<T>(s: seq<T>, x: T)
    requires Distinct(s)
    ensures multiset(s)[x] <= 1
  {
    if |s| > 0 {
      assert s == [s[0]] + s[1..];
      DistinctCount(s[1..], x);
      if s[0] == x {
        assert x !in s[1..];
      }
    }
  }

  /** Whatever is drawn from a list without repetitions has no repetitions either. */
  lemma SubMultisetDistinct<T>(a: seq<T>, b: seq<T>)
    requires Distinct(b)
    requires multiset(a) <= multiset(b)
    ensures Distinct(a)
  {
    forall i, j | 0 <= i < j < |a|
      ensures a[i] != a[j]
    {
      if a[i] == a[j] {
        assert a == a[..j] + a[j..];
        assert a[i] in a[..j];
        assert a[j] in a[j..];
        assert multiset(a)[a[i]] >= 2;
        DistinctCount(b, a[i]);
        assert false;
      }
    }
  }

  lemma PrefixSubMultiset<T>(s: seq<T>, n: nat)
    requires n <= |s|
    ensures multiset(s[..n]) <= multiset(s)
  {
    assert s == s[..n] + s[n..];
  }

  /** Every element of a sub-multiset is an element of the larger list. */
  lemma SubMultisetMembers<T>(a: seq<T>, b: seq<T>)
    requires multiset(a) <= multiset(b)
    ensures forall k :: 0 <= k < |a| ==> a[k] in b
  {
    forall k | 0 <= k < |a|
      ensures a[k] in b
    {
      assert a[k] in multiset(a);
    }
  }

  /** Identities drawn from the positions of a list of length n are below n. */
  lemma SubMultisetOfIndices(a: seq<nat>, n: nat)
    requires multiset(a) <= multiset(Indices(n))
    ensures forall k :: 0 <= k < |a| ==> a[k] < n
  {
    SubMultisetMembers(a, Indices(n));
  }
}
