/**
 * Ordering rows by an integer key, as `ORDER BY … ASC LIMIT n` and Python's
 * `list.sort(key=…)` do: an insertion sort on sequences, with the facts that
 * its result is ordered and a permutation of its input.
 */
module Sorting {

  predicate SortedBy<T>(s: seq<T>, key: T -> int)
  {
    forall i, j :: 0 <= i < j < |s| ==> key(s[i]) <= key(s[j])
  }

  /** A key no larger than those of `x` and of every element of `tail` is no larger than any key of a permutation of both. */
  lemma BelowPermutation<T>(h: T, rest: seq<T>, x: T, tail: seq<T>, key: T -> int)
    requires multiset(rest) == multiset(tail) + multiset{x}
    requires key(h) <= key(x) && forall i :: 0 <= i < |tail| ==> key(h) <= key(tail[i])
    ensures forall i :: 0 <= i < |rest| ==> key(h) <= key(rest[i])
  {
    forall i | 0 <= i < |rest|
      ensures key(h) <= key(rest[i])
    {
      assert rest[i] in multiset(rest);
      if rest[i] != x {
        assert rest[i] in multiset(tail);
        var k :| 0 <= k < |tail| && tail[k] == rest[i];
      }
    }
  }

  /** Places `x` before the first element whose key is not smaller, so equal keys keep their order. */
  function InsertBy<T(==)>(x: T, s: seq<T>, key: T -> int): (r: seq<T>)
    requires SortedBy(s, key)
    ensures SortedBy(r, key)
    ensures multiset(r) == multiset(s) + multiset{x}
    ensures |r| == |s| + 1
  {
    if |s| == 0 || key(x) <= key(s[0]) then [x] + s
    else
      var rest := InsertBy(x, s[1..], key);
      assert s == [s[0]] + s[1..];
      assert forall i :: 0 <= i < |s[1..]| ==> key(s[0]) <= key(s[1..][i]) by {
        assert forall i :: 0 <= i < |s[1..]| ==> s[1..][i] == s[i + 1];
      }
      BelowPermutation(s[0], rest, x, s[1..], key);
      [s[0]] + rest
  }

  function SortBy<T(==)>(s: seq<T>, key: T -> int): (r: seq<T>)
    ensures SortedBy(r, key)
    ensures multiset(r) == multiset(s)
    ensures |r| == |s|
  {
    if |s| == 0 then []
    else
      assert s == [s[0]] + s[1..];
      InsertBy(s[0], SortBy(s[1..], key), key)
  }

  /** Sorting loses no element. */
  lemma InSorted<T>(x: T, s: seq<T>, key: T -> int)
    requires x in s
    ensures x in SortBy(s, key)
  {
    assert x in multiset(s);
  }

  /** `LIMIT n`: the first `n` rows, or all of them when there are fewer. */
  function Take<T>(s: seq<T>, n: nat): (r: seq<T>)
    ensures |r| == if |s| < n then |s| else n
    ensures r == s[..|r|]
  {
    if |s| <= n then s else s[..n]
  }

  /** A prefix of an ordered sequence is ordered. */
  lemma PrefixSorted<T>(r: seq<T>, key: T -> int, m: nat)
    requires SortedBy(r, key) && m <= |r|
    ensures SortedBy(r[..m], key)
  {
    assert forall i :: 0 <= i < m ==> r[..m][i] == r[i];
  }

  /** A prefix holds no element more often than the whole. */
  lemma PrefixMultiset<T>(r: seq<T>, m: nat)
    requires m <= |r|
    ensures multiset(r[..m]) <= multiset(r)
  {
    assert r == r[..m] + r[m..];
    assert multiset(r) == multiset(r[..m]) + multiset(r[m..]);
  }

  /** A limited sorted batch holds only input rows, in key order, and as many as the limit allows. */
  lemma SortedBatch<T>(s: seq<T>, key: T -> int, n: nat)
    ensures var b := Take(SortBy(s, key), n);
      SortedBy(b, key) && multiset(b) <= multiset(s) && |b| == (if |s| < n then |s| else n)
  {
    var r := SortBy(s, key);
    var b := Take(r, n);
    PrefixSorted(r, key, |b|);
    PrefixMultiset(r, |b|);
  }

  /** No row of an ordered permutation left out of its first `n` comes before the last row taken. */
  lemma SortedBatchLeastFirst<T>(s: seq<T>, r: seq<T>, key: T -> int, n: nat, x: T)
    requires SortedBy(r, key) && multiset(r) == multiset(s)
    requires x in s && x !in Take(r, n)
    ensures var b := Take(r, n);
      |b| > 0 ==> key(b[|b| - 1]) <= key(x)
  {
    var b := Take(r, n);
    assert x in multiset(r) by {
      assert x in multiset(s);
    }
    var k :| 0 <= k < |r| && r[k] == x;
    assert forall j :: 0 <= j < |b| ==> b[j] == r[j] && b[j] in b;
    assert k >= |b|;
    if |b| > 0 {
      assert b[|b| - 1] == r[|b| - 1];
    }
  }

  /** A sorted batch: drawn from the input, sorted, as long as it can be, and no row left out comes before its last row. */
  lemma BatchSpec<T>(s: seq<T>, key: T -> int, n: nat)
    ensures var b := Take(SortBy(s, key), n);
      (forall x :: x in b ==> x in s) && SortedBy(b, key) && |b| == (if |s| < n then |s| else n) &&
      (forall x :: x in s && x !in b && |b| > 0 ==> key(b[|b| - 1]) <= key(x))
  {
    SortedBatch(s, key, n);
    BatchDrawnFromInput(s, key, n);
    BatchLeavesLater(s, key, n);
  }

  lemma BatchDrawnFromInput<T>(s: seq<T>, key: T -> int, n: nat)
    ensures forall x :: x in Take(SortBy(s, key), n) ==> x in s
  {
    var b := Take(SortBy(s, key), n);
    SortedBatch(s, key, n);
    forall x | x in b
      ensures x in s
    {
      InSubMultiset(x, b, s);
    }
  }

  lemma InSubMultiset<T>(x: T, b: seq<T>, s: seq<T>)
    requires multiset(b) <= multiset(s) && x in b
    ensures x in s
  {
    assert x in multiset(b);
  }

  lemma BatchLeavesLater<T>(s: seq<T>, key: T -> int, n: nat)
    ensures var b := Take(SortBy(s, key), n);
      forall x :: x in s && x !in b && |b| > 0 ==> key(b[|b| - 1]) <= key(x)
  {
    PrefixLeavesLater(s, SortBy(s, key), key, n);
  }

  lemma PrefixLeavesLater<T>(s: seq<T>, r: seq<T>, key: T -> int, n: nat)
    requires SortedBy(r, key) && multiset(r) == multiset(s)
    ensures var b := Take(r, n);
      forall x :: x in s && x !in b && |b| > 0 ==> key(b[|b| - 1]) <= key(x)
  {
    var b := Take(r, n);
    forall x | x in s && x !in b
      ensures |b| > 0 ==> key(b[|b| - 1]) <= key(x)
    {
      SortedBatchLeastFirst(s, r, key, n, x);
    }
  }
}
