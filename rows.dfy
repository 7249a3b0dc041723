/**
 * Table rows kept by a WHERE clause (`DELETE … WHERE` keeps the rest) and
 * rewritten by an `UPDATE … SET … WHERE`, in table order.
 */
module Rows {

  /** One more element of a prefix, cut back, is the shorter prefix. */
  lemma PrefixStep<T>(s: seq<T>, i: nat)
    requires i < |s|
    ensures s[..i + 1][..i] == s[..i]
  {
  }

  function Filter<T>(s: seq<T>, keep: T -> bool): (r: seq<T>)
    ensures |r| <= |s|
  {
    if |s| == 0 then [] else (if keep(s[0]) then [s[0]] else []) + Filter(s[1..], keep)
  }

  /** The kept rows are exactly the rows of `s` that satisfy `keep`. */
  lemma {:induction false} FilterMembers<T>(s: seq<T>, keep: T -> bool)
    ensures forall x :: x in Filter(s, keep) <==> x in s && keep(x)
    decreases |s|
  {
    if |s| > 0 {
      FilterMembers(s[1..], keep);
      assert s == [s[0]] + s[1..];
    }
  }

  /** Keeping everything changes nothing. */
  lemma {:induction false} FilterAll<T>(s: seq<T>, keep: T -> bool)
    requires forall i :: 0 <= i < |s| ==> keep(s[i])
    ensures Filter(s, keep) == s
    decreases |s|
  {
    if |s| > 0 {
      FilterAll(s[1..], keep);
    }
  }

  function MapRows<T>(s: seq<T>, f: T -> T): (r: seq<T>)
    ensures |r| == |s| && forall i :: 0 <= i < |s| ==> r[i] == f(s[i])
  {
    seq(|s|, i requires 0 <= i < |s| => f(s[i]))
  }
}
