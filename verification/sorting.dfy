/**
 * A stable sort by a real-valued key, ascending: the behaviour of Java's `Collections.sort`
 * (a stable merge sort) under a comparator that compares one key with `Double.compare`.
 */
module Sorting {

  /** Keys never decrease along `s`. */
  predicate SortedBy<T>(s: seq<T>, key: T -> real)
  {
    forall i, j :: 0 <= i < j < |s| ==> key(s[i]) <= key(s[j])
  }

  /** The elements of `s` whose key equals `v`, in their order in `s`. */
  function WithKey<T>(s: seq<T>, key: T -> real, v: real): seq<T>
  {
    if |s| == 0 then []
    else (if key(s[0]) == v then [s[0]] else []) + WithKey(s[1..], key, v)
  }

  /** Inserts `x` ahead of the first element whose key is not smaller. */
  function InsertBy<T>(x: T, s: seq<T>, key: T -> real): (r: seq<T>)
    ensures multiset(r) == multiset(s) + multiset{x}
    ensures r[0] == x || (|s| > 0 && r[0] == s[0])
  {
    if |s| == 0 || key(x) <= key(s[0]) then [x] + s
    else
      assert s == [s[0]] + s[1..];
      [s[0]] + InsertBy(x, s[1..], key)
  }

  /** Inserting into a sorted list keeps it sorted. */
  lemma {:induction false} InsertBySorted<T>(x: T, s: seq<T>, key: T -> real)
    requires SortedBy(s, key)
    ensures SortedBy(InsertBy(x, s, key), key)
  {
    if |s| == 0 || key(x) <= key(s[0]) {
      ConsSorted(x, s, key);
    } else {
      var rest := InsertBy(x, s[1..], key);
      InsertBySorted(x, s[1..], key);
      ConsSorted(s[0], rest, key);
    }
  }

  /** A sorted list stays sorted behind a head whose key is no larger than its first. */
  lemma ConsSorted<T>(h: T, s: seq<T>, key: T -> real)
    requires SortedBy(s, key)
    requires |s| > 0 ==> key(h) <= key(s[0])
    ensures SortedBy([h] + s, key)
  {
    var r := [h] + s;
    forall i, j | 0 <= i < j < |r|
      ensures key(r[i]) <= key(r[j])
    {
      if i == 0 {
        assert r[j] == s[j - 1];
        assert key(s[0]) <= key(s[j - 1]);
      } else {
        assert r[i] == s[i - 1] && r[j] == s[j - 1];
      }
    }
  }

  /** Insertion sort: a stable sort of `s`, ascending by `key`. */
  function SortBy<T>(s: seq<T>, key: T -> real): (r: seq<T>)
    ensures SortedBy(r, key)
    ensures multiset(r) == multiset(s)
    ensures |r| == |s|
  {
    assert |multiset(s)| == |s|;
    if |s| == 0 then []
    else
      assert s == [s[0]] + s[1..];
      var sorted := SortBy(s[1..], key);
      InsertBySorted(s[0], sorted, key);
      InsertBy(s[0], sorted, key)
  }

  lemma {:induction false} InsertByWithKey<T>(x: T, s: seq<T>, key: T -> real, v: real)
    ensures WithKey(InsertBy(x, s, key), key, v)
      == (if key(x) == v then [x] else []) + WithKey(s, key, v)
  {
    var r := InsertBy(x, s, key);
    if |s| == 0 || key(x) <= key(s[0]) {
      assert r == [x] + s;
      assert r[0] == x && r[1..] == s;
    } else {
      var rest := InsertBy(x, s[1..], key);
      InsertByWithKey(x, s[1..], key, v);
      assert r == [s[0]] + rest;
      assert r[0] == s[0] && r[1..] == rest;
      if key(s[0]) == v {
        // s[0] sorts strictly before x, so x does not carry the key `v`
        assert WithKey(r, key, v) == [s[0]] + WithKey(rest, key, v);
        assert WithKey(s, key, v) == [s[0]] + WithKey(s[1..], key, v);
      } else {
        assert WithKey(r, key, v) == WithKey(rest, key, v);
        assert WithKey(s, key, v) == WithKey(s[1..], key, v);
      }
    }
  }

  /**
   * Stability: for every key value, the elements carrying it appear in the sorted list in
   * the same order as in the input.
   */
  lemma {:induction false} SortByStable<T>(s: seq<T>, key: T -> real, v: real)
    ensures WithKey(SortBy(s, key), key, v) == WithKey(s, key, v)
  {
    if |s| > 0 {
      SortByStable(s[1..], key, v);
      InsertByWithKey(s[0], SortBy(s[1..], key), key, v);
    }
  }

  /** Splitting a key-sorted list: nothing kept in the prefix has a larger key than anything dropped. */
  lemma SortedPrefixBeforeSuffix<T>(s: seq<T>, key: T -> real, n: nat, x: T, y: T)
    requires SortedBy(s, key)
    requires n <= |s|
    requires x in s[..n] && y in s[n..]
    ensures key(x) <= key(y)
  {
    var i :| 0 <= i < n && s[..n][i] == x;
    var j :| 0 <= j < |s| - n && s[n..][j] == y;
    assert s[i] == x && s[n + j] == y;
  }

  /** In a key-sorted list every element of a prefix has a key no larger than every element after it. */
  lemma SortedPrefixBeforeSuffixAll<T>(s: seq<T>, key: T -> real, n: nat)
    requires SortedBy(s, key)
    requires n <= |s|
    ensures forall x, y :: x in s[..n] && y in s[n..] ==> key(x) <= key(y)
  {
    forall x, y | x in s[..n] && y in s[n..]
      ensures key(x) <= key(y)
    {
      SortedPrefixBeforeSuffix(s, key, n, x, y);
    }
  }
}
