/** Order-preserving selection over sequences: the behaviour of JavaScript's
    `Array.prototype.filter`, and the subsequence relation it produces. */
module Sequences {

  /** `a` is obtained from `b` by deleting some elements, the rest keeping
      their relative order. */
  ghost predicate IsSubsequence<T>(a: seq<T>, b: seq<T>)
    decreases |b|
  {
    if a == [] then true
    else if b == [] then false
    else (a[0] == b[0] && IsSubsequence(a[1..], b[1..])) || IsSubsequence(a, b[1..])
  }

  /** `s.filter(p)`: the elements of `s` that satisfy `p`, in their order. */
  function Filter<T>(s: seq<T>, p: T -> bool): (r: seq<T>)
    ensures |r| <= |s|
    ensures forall i :: 0 <= i < |r| ==> r[i] in s && p(r[i])
    ensures forall i :: 0 <= i < |s| && p(s[i]) ==> s[i] in r
  {
    if s == [] then []
    else if p(s[0]) then [s[0]] + Filter(s[1..], p)
    else Filter(s[1..], p)
  }

  /** Filtering keeps every occurrence of an element that passes and drops
      every occurrence of one that does not. */
  lemma {:induction false} FilterCounts<T>(s: seq<T>, p: T -> bool, x: T)
    ensures multiset(Filter(s, p))[x] == if p(x) then multiset(s)[x] else 0
  {
    if s != [] {
      FilterCounts(s[1..], p, x);
      assert s == [s[0]] + s[1..];
    }
  }

  /** The filtered sequence keeps the order of the original. */
  lemma {:induction false} FilterIsSubsequence<T>(s: seq<T>, p: T -> bool)
    ensures IsSubsequence(Filter(s, p), s)
  {
    if s != [] {
      FilterIsSubsequence(s[1..], p);
      var rest := Filter(s[1..], p);
      if p(s[0]) {
        var r := [s[0]] + rest;
        assert r[0] == s[0] && r[1..] == rest;
      } else {
        if rest != [] {
          assert IsSubsequence(rest, s[1..]);
        }
      }
    }
  }

  /** Filtering by a predicate and by its complement splits the sequence. */
  lemma {:induction false} FilterPartition<T>(s: seq<T>, p: T -> bool, q: T -> bool)
    requires forall i :: 0 <= i < |s| ==> q(s[i]) == !p(s[i])
    ensures |Filter(s, p)| + |Filter(s, q)| == |s|
  {
    if s != [] {
      FilterPartition(s[1..], p, q);
    }
  }

  /** Two filters applied one after the other commute. */
  lemma {:induction false} FilterCommutes<T>(s: seq<T>, p: T -> bool, q: T -> bool)
    ensures Filter(Filter(s, p), q) == Filter(Filter(s, q), p)
  {
    if s != [] {
      FilterCommutes(s[1..], p, q);
    }
  }

  /** A filter that rejects nothing of `s` returns `s` itself. */
  lemma {:induction false} FilterKeepsAll<T>(s: seq<T>, p: T -> bool)
    requires forall i :: 0 <= i < |s| ==> p(s[i])
    ensures Filter(s, p) == s
  {
    if s != [] {
      FilterKeepsAll(s[1..], p);
    }
  }

  /** Two filters in turn also keep the order of the original. */
  lemma {:induction false} FilterTwiceIsSubsequence<T>(s: seq<T>, p: T -> bool, q: T -> bool)
    ensures IsSubsequence(Filter(Filter(s, p), q), s)
  {
    if s != [] {
      FilterTwiceIsSubsequence(s[1..], p, q);
      var rest := Filter(Filter(s[1..], p), q);
      var r := Filter(Filter(s, p), q);
      if p(s[0]) && q(s[0]) {
        assert Filter(s, p) == [s[0]] + Filter(s[1..], p);
        assert r == [s[0]] + rest;
        assert r[0] == s[0] && r[1..] == rest;
      } else if p(s[0]) {
        assert Filter(s, p) == [s[0]] + Filter(s[1..], p);
        assert r == rest;
      } else {
        assert r == rest;
      }
    }
  }

  /** What the filtered sequence holds, element by element. */
  lemma FilterMembers<T>(s: seq<T>, p: T -> bool)
    ensures forall x :: x in Filter(s, p) <==> x in s && p(x)
  {
  }
}
