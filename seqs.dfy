/** The array built-ins the pipeline is written with (`map`, `filter`,
    `reduce`), as functions on sequences, with the facts the rest of the
    model needs about them. */
module Seqs {

  /** `Array.prototype.map`: one result per element, in order. */
  function Map<A, B>(s: seq<A>, f: A -> B): (r: seq<B>)
    ensures |r| == |s|
    ensures forall i :: 0 <= i < |s| ==> r[i] == f(s[i])
  {
    if s == [] then [] else [f(s[0])] + Map(s[1..], f)
  }

  /** `Array.prototype.filter`: the elements that satisfy `p`. */
  function Filter<A>(s: seq<A>, p: A -> bool): (r: seq<A>)
    ensures |r| <= |s|
    ensures forall i :: 0 <= i < |r| ==> r[i] in s && p(r[i])
    ensures forall i :: 0 <= i < |s| && p(s[i]) ==> s[i] in r
  {
    if s == [] then [] else (if p(s[0]) then [s[0]] else []) + Filter(s[1..], p)
  }

  /** `Array.prototype.reduce(f, init)`: a left fold that also passes each
      element's position. */
  function Reduce<A, B>(s: seq<A>, f: (B, A, nat) -> B, init: B): B
    decreases |s|
  {
    if s == [] then init else f(Reduce(s[..|s| - 1], f, init), s[|s| - 1], |s| - 1)
  }

  /** Filtering keeps the relative order of what it keeps: it distributes
      over concatenation, so the result is the subsequence of the input
      made of the elements that satisfy `p`. */
  lemma {:induction false} FilterAppend<A>(a: seq<A>, b: seq<A>, p: A -> bool)
    ensures Filter(a + b, p) == Filter(a, p) + Filter(b, p)
  {
    if a == [] {
      assert a + b == b;
    } else {
      assert (a + b)[1..] == a[1..] + b;
      FilterAppend(a[1..], b, p);
    }
  }

  /** Filtering a sequence extended by one element keeps what it kept and
      then that element if it satisfies `p`. */
  lemma FilterSnoc<A>(s: seq<A>, x: A, p: A -> bool)
    ensures Filter(s + [x], p) == Filter(s, p) + if p(x) then [x] else []
  {
    FilterAppend(s, [x], p);
    assert [x][1..] == [];
  }

  /** Nothing is kept when no element satisfies `p`. */
  lemma {:induction false} FilterNone<A>(s: seq<A>, p: A -> bool)
    requires forall i :: 0 <= i < |s| ==> !p(s[i])
    ensures Filter(s, p) == []
  {
    if s != [] {
      FilterNone(s[1..], p);
    }
  }

  /** Filtering with two predicates that agree on the input gives the same
      result. */
  lemma {:induction false} FilterExt<A>(s: seq<A>, p: A -> bool, q: A -> bool)
    requires forall i :: 0 <= i < |s| ==> p(s[i]) == q(s[i])
    ensures Filter(s, p) == Filter(s, q)
  {
    if s != [] {
      FilterExt(s[1..], p, q);
    }
  }

  /** Folding with two steps that agree at every position of the input
      gives the same result. */
  lemma {:induction false} ReduceExt<A, B>(s: seq<A>, f: (B, A, nat) -> B, g: (B, A, nat) -> B, init: B)
    requires forall acc: B, i: nat :: i < |s| ==> f(acc, s[i], i) == g(acc, s[i], i)
    ensures Reduce(s, f, init) == Reduce(s, g, init)
  {
    if s != [] {
      var pre := s[..|s| - 1];
      forall acc: B, i: nat | i < |pre|
        ensures f(acc, pre[i], i) == g(acc, pre[i], i)
      {
        assert pre[i] == s[i];
      }
      ReduceExt(pre, f, g, init);
    }
  }
}
