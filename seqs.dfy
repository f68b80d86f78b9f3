/** Sequence filtering, the shape of JavaScript's `Array.prototype.filter`
    with a predicate that looks only at the element. */
module Seqs {

  /** The elements of `s` that satisfy `p`, in their original order. */
  function Keep<T>(s: seq<T>, p: T -> bool): (r: seq<T>)
    ensures |r| <= |s|
    ensures forall x :: x in r ==> x in s && p(x)
  {
    if s == [] then []
    else Keep(s[..|s| - 1], p) + (if p(s[|s| - 1]) then [s[|s| - 1]] else [])
  }

  /** The positions of `s` whose element satisfies `p`, in ascending order. */
  function Selected<T>(s: seq<T>, p: T -> bool): (idx: seq<nat>)
    ensures forall k, l :: 0 <= k < l < |idx| ==> idx[k] < idx[l]
    ensures forall k :: 0 <= k < |idx| ==> idx[k] < |s|
    ensures forall i :: 0 <= i < |s| ==> (i in idx <==> p(s[i]))
  {
    if s == [] then []
    else
      var n := |s| - 1;
      var prev := Selected(s[..n], p);
      assert forall i :: 0 <= i < n ==> s[i] == s[..n][i];
      prev + (if p(s[n]) then [n] else [])
  }

  /** `Keep(s, p)` lists `s` at the positions `Selected(s, p)`: it is the
      subsequence of exactly the elements that satisfy `p`. */
  lemma {:induction false} KeepAtSelected<T>(s: seq<T>, p: T -> bool)
    ensures |Selected(s, p)| == |Keep(s, p)|
    ensures forall k :: 0 <= k < |Keep(s, p)| ==> s[Selected(s, p)[k]] == Keep(s, p)[k]
  {
    if s != [] {
      var n := |s| - 1;
      KeepAtSelected(s[..n], p);
      var prev, kept := Selected(s[..n], p), Keep(s[..n], p);
      assert Selected(s, p) == prev + (if p(s[n]) then [n] else []);
      assert Keep(s, p) == kept + (if p(s[n]) then [s[n]] else []);
      forall k | 0 <= k < |kept|
        ensures s[Selected(s, p)[k]] == Keep(s, p)[k]
      {
        assert Selected(s, p)[k] == prev[k];
        assert s[prev[k]] == s[..n][prev[k]];
      }
    }
  }

  /** Keeping with a predicate every element already satisfies is the identity. */
  lemma {:induction false} KeepAll<T>(s: seq<T>, p: T -> bool)
    requires forall x :: x in s ==> p(x)
    ensures Keep(s, p) == s
  {
    if s != [] {
      var n := |s| - 1;
      assert s == s[..n] + [s[n]];
      KeepAll(s[..n], p);
      assert p(s[n]);
    }
  }

  /** Filtering twice with the same predicate is filtering once. */
  lemma KeepIdempotent<T>(s: seq<T>, p: T -> bool)
    ensures Keep(Keep(s, p), p) == Keep(s, p)
  {
    KeepAll(Keep(s, p), p);
  }

  /** Two filters in a row keep what satisfies both predicates. */
  lemma {:induction false} KeepKeep<T>(s: seq<T>, p: T -> bool, q: T -> bool, both: T -> bool)
    requires forall x :: both(x) == (p(x) && q(x))
    ensures Keep(Keep(s, p), q) == Keep(s, both)
  {
    if s != [] {
      var n := |s| - 1;
      KeepKeep(s[..n], p, q, both);
      var front := Keep(s[..n], p);
      if p(s[n]) {
        assert Keep(s, p) == front + [s[n]];
        assert (front + [s[n]])[..|front|] == front;
      } else {
        assert Keep(s, p) == front;
      }
    }
  }

  /** Each element occurs in `Keep(s, p)` exactly as often as in `s` when it
      satisfies `p`, and not at all otherwise. */
  lemma {:induction false} KeepMultiset<T>(s: seq<T>, p: T -> bool, x: T)
    ensures multiset(Keep(s, p))[x] == if p(x) then multiset(s)[x] else 0
  {
    if s != [] {
      var n := |s| - 1;
      KeepMultiset(s[..n], p, x);
      assert s == s[..n] + [s[n]];
    }
  }

  /** The elements that satisfy `p` and those that satisfy its negation `q`
      partition `s`. */
  lemma {:induction false} KeepSplit<T>(s: seq<T>, p: T -> bool, q: T -> bool)
    requires forall x :: q(x) == !p(x)
    ensures |Keep(s, p)| + |Keep(s, q)| == |s|
  {
    if s != [] {
      KeepSplit(s[..|s| - 1], p, q);
    }
  }
}
