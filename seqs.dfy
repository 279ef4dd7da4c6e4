/** Array.prototype.filter on sequences, and what it promises: the kept
    elements are exactly those that pass, in their original order. */
module Seqs {

  /** `s.filter(p)`. Defined from the back, the way a loop that pushes
      passing elements builds it. */
  function Filter<T>(s: seq<T>, p: T -> bool): (r: seq<T>)
    ensures |r| <= |s|
  {
    if s == [] then []
    else
      var last := s[|s| - 1];
      Filter(s[..|s| - 1], p) + (if p(last) then [last] else [])
  }

  /** An element is kept exactly when it occurs in the input and passes. */
  lemma {:induction false} FilterMembers<T>(s: seq<T>, p: T -> bool)
    ensures forall x :: x in Filter(s, p) <==> x in s && p(x)
  {
    if s != [] {
      var n := |s| - 1;
      FilterMembers(s[..n], p);
      assert s == s[..n] + [s[n]];
    }
  }

  /** `a` is `b` with some elements deleted: `idx` says where each element
      of `a` sits in `b`, and the positions strictly increase. */
  ghost predicate SubsequenceAt<T>(a: seq<T>, b: seq<T>, idx: seq<int>)
  {
    && |idx| == |a|
    && (forall i :: 0 <= i < |a| ==> 0 <= idx[i] < |b| && a[i] == b[idx[i]])
    && (forall i, j :: 0 <= i < j < |idx| ==> idx[i] < idx[j])
  }

  /** Filtering keeps the surviving elements in their original relative
      order, and every position whose element passes is kept. */
  lemma {:induction false} FilterIsSubsequence<T>(s: seq<T>, p: T -> bool) returns (idx: seq<int>)
    ensures SubsequenceAt(Filter(s, p), s, idx)
    ensures forall k :: 0 <= k < |s| && p(s[k]) ==> k in idx
  {
    if s == [] {
      idx := [];
    } else {
      var n := |s| - 1;
      var init := s[..n];
      var front := FilterIsSubsequence(init, p);
      var tail := if p(s[n]) then [n] else [];
      idx := front + tail;
      assert Filter(s, p) == Filter(init, p) + (if p(s[n]) then [s[n]] else []);
      assert forall i :: 0 <= i < |front| ==> front[i] < n;
      forall k | 0 <= k < |s| && p(s[k]) ensures k in idx {
        if k < n {
          assert init[k] == s[k];
          assert k in front;
        } else {
          assert k in tail;
        }
      }
    }
  }

  /** Filtering by a predicate and by its negation splits the input: together
      the two results hold every element exactly as often as the input does. */
  lemma {:induction false} FilterPartition<T>(s: seq<T>, p: T -> bool, q: T -> bool)
    requires forall x :: q(x) == !p(x)
    ensures multiset(Filter(s, p)) + multiset(Filter(s, q)) == multiset(s)
  {
    if s != [] {
      var n := |s| - 1;
      var init := s[..n];
      var last := s[n];
      FilterPartition(init, p, q);
      assert s == init + [last];
      var kept := if p(last) then [last] else [];
      var dropped := if q(last) then [last] else [];
      assert multiset(kept) + multiset(dropped) == multiset{last} by {
        assert q(last) == !p(last);
      }
    }
  }

  /** The two parts of that split add up to the input's length. */
  lemma FilterPartitionLength<T>(s: seq<T>, p: T -> bool, q: T -> bool)
    requires forall x :: q(x) == !p(x)
    ensures |Filter(s, p)| + |Filter(s, q)| == |s|
  {
    FilterPartition(s, p, q);
    assert |multiset(Filter(s, p))| == |Filter(s, p)|;
    assert |multiset(Filter(s, q))| == |Filter(s, q)|;
  }

  /** Filtering a concatenation filters each part. */
  lemma {:induction false} FilterConcat<T>(a: seq<T>, b: seq<T>, p: T -> bool)
    ensures Filter(a + b, p) == Filter(a, p) + Filter(b, p)
  {
    if b == [] {
      assert a + b == a;
    } else {
      var n := |b| - 1;
      assert (a + b)[..|a + b| - 1] == a + b[..n];
      assert (a + b)[|a + b| - 1] == b[n];
      FilterConcat(a, b[..n], p);
    }
  }

  /** A sequence whose elements all pass is left as it is. */
  lemma {:induction false} FilterAllPass<T>(s: seq<T>, p: T -> bool)
    requires forall i :: 0 <= i < |s| ==> p(s[i])
    ensures Filter(s, p) == s
  {
    if s != [] {
      var n := |s| - 1;
      FilterAllPass(s[..n], p);
      assert p(s[n]);
      assert s[..n] + [s[n]] == s;
    }
  }

  /** A sequence none of whose elements pass filters to nothing. */
  lemma {:induction false} FilterNonePass<T>(s: seq<T>, p: T -> bool)
    requires forall i :: 0 <= i < |s| ==> !p(s[i])
    ensures Filter(s, p) == []
  {
    if s != [] {
      FilterNonePass(s[..|s| - 1], p);
    }
  }

  /** When the first `m` elements pass, they are also the first `m` kept. */
  lemma FilterKeepsPassingPrefix<T>(s: seq<T>, p: T -> bool, m: int)
    requires 0 <= m <= |s|
    requires forall i :: 0 <= i < m ==> p(s[i])
    ensures m <= |Filter(s, p)| && Filter(s, p)[..m] == s[..m]
  {
    assert s == s[..m] + s[m..];
    FilterConcat(s[..m], s[m..], p);
    FilterAllPass(s[..m], p);
  }
}
