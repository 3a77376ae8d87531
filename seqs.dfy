/**
 * Sequence operations behind JavaScript's `Array.prototype.filter`/`map`/`slice`
 * and Java's `Stream.limit`.
 */
module Seqs {
  import opened Wrappers

  /** `sub` is obtained from `xs` by deleting elements, keeping the order of the rest. */
  predicate IsSubsequence<T(==)>(sub: seq<T>, xs: seq<T>) {
    if sub == [] then true
    else if xs == [] then false
    else if sub[0] == xs[0] then IsSubsequence(sub[1..], xs[1..])
    else IsSubsequence(sub, xs[1..])
  }

  /** `xs.filter(keep)`. */
  function Filter<T(==)>(xs: seq<T>, keep: T -> bool): (r: seq<T>)
    ensures |r| <= |xs|
    ensures forall i | 0 <= i < |r| :: r[i] in xs && keep(r[i])
    ensures forall i | 0 <= i < |xs| && keep(xs[i]) :: xs[i] in r
  {
    if xs == [] then []
    else
      var rest := Filter(xs[1..], keep);
      assert forall i | 1 <= i < |xs| :: xs[i] == xs[1..][i - 1];
      if keep(xs[0]) then [xs[0]] + rest else rest
  }

  /** Every element kept is kept as many times as it occurs; the others not at all. */
  lemma {:induction false} FilterMultiplicity<T>(xs: seq<T>, keep: T -> bool)
    ensures forall x | x in xs :: multiset(Filter(xs, keep))[x] == if keep(x) then multiset(xs)[x] else 0
  {
    if xs != [] {
      var rest := Filter(xs[1..], keep);
      FilterMultiplicity(xs[1..], keep);
      assert xs == [xs[0]] + xs[1..];
      assert multiset(xs) == multiset{xs[0]} + multiset(xs[1..]);
      if keep(xs[0]) {
        assert multiset(Filter(xs, keep)) == multiset{xs[0]} + multiset(rest);
      }
      forall x | x in xs
        ensures multiset(Filter(xs, keep))[x] == if keep(x) then multiset(xs)[x] else 0
      {
        if x !in xs[1..] {
          assert x !in rest;
        }
      }
    }
  }

  /** The filtered sequence keeps its elements in their original order. */
  lemma {:induction false} FilterIsSubsequence<T>(xs: seq<T>, keep: T -> bool)
    ensures IsSubsequence(Filter(xs, keep), xs)
  {
    if xs != [] {
      FilterIsSubsequence(xs[1..], keep);
      if !keep(xs[0]) {
        SubsequenceOfTail(Filter(xs[1..], keep), xs);
      }
    }
  }

  lemma {:induction false} SubsequenceOfTail<T>(sub: seq<T>, xs: seq<T>)
    requires xs != [] && IsSubsequence(sub, xs[1..])
    ensures IsSubsequence(sub, xs)
  {
    if sub != [] && sub[0] == xs[0] {
      var tail := xs[1..];
      if tail != [] && sub[0] == tail[0] {
        SubsequenceOfTail(sub[1..], tail);
      } else {
        SubsequenceShrink(sub, tail);
      }
    }
  }

  /** Dropping the first element of a subsequence keeps it a subsequence. */
  lemma {:induction false} SubsequenceShrink<T>(sub: seq<T>, xs: seq<T>)
    requires sub != [] && IsSubsequence(sub, xs)
    ensures IsSubsequence(sub[1..], xs)
  {
    if sub[0] == xs[0] {
      SubsequenceOfTail(sub[1..], xs);
    } else {
      SubsequenceShrink(sub, xs[1..]);
      SubsequenceOfTail(sub[1..], xs);
    }
  }

  lemma {:induction false} SubsequenceReflexive<T>(xs: seq<T>)
    ensures IsSubsequence(xs, xs)
  {
    if xs != [] {
      SubsequenceReflexive(xs[1..]);
    }
  }

  /** A subsequence of a subsequence is a subsequence. */
  lemma {:induction false} SubsequenceTransitive<T>(a: seq<T>, b: seq<T>, c: seq<T>)
    requires IsSubsequence(a, b) && IsSubsequence(b, c)
    ensures IsSubsequence(a, c)
    decreases |b| + |c|
  {
    if a != [] {
      if b[0] == c[0] {
        if a[0] == b[0] {
          SubsequenceTransitive(a[1..], b[1..], c[1..]);
        } else {
          SubsequenceTransitive(a, b[1..], c[1..]);
          SubsequenceOfTail(a, c);
        }
      } else {
        SubsequenceTransitive(a, b, c[1..]);
        SubsequenceOfTail(a, c);
      }
    }
  }

  /** The distinct elements of a sequence: JavaScript `new Set(xs)`. */
  function Elements<T>(xs: seq<T>): set<T> {
    set i | 0 <= i < |xs| :: xs[i]
  }

  /** A sequence has at most as many distinct elements as entries, and at
      least one when it is not empty. */
  lemma {:induction false} ElementsBound<T>(xs: seq<T>)
    ensures |Elements(xs)| <= |xs|
    ensures xs != [] ==> |Elements(xs)| >= 1
  {
    if xs != [] {
      ElementsBound(xs[1..]);
      assert Elements(xs) == {xs[0]} + Elements(xs[1..]) by {
        forall i | 0 <= i < |xs|
          ensures xs[i] in {xs[0]} + Elements(xs[1..])
        {
          if i > 0 {
            assert xs[i] == xs[1..][i - 1];
          }
        }
      }
      assert xs[0] in Elements(xs);
    }
  }

  /** `xs.filter(keep).length`. */
  function Count<T(==)>(xs: seq<T>, keep: T -> bool): nat {
    |Filter(xs, keep)|
  }

  /** Counting by a predicate and by its negation splits the whole. */
  lemma {:induction false} CountSplit<T>(xs: seq<T>, keep: T -> bool, drop: T -> bool)
    requires forall i | 0 <= i < |xs| :: drop(xs[i]) == !keep(xs[i])
    ensures Count(xs, keep) + Count(xs, drop) == |xs|
  {
    if xs != [] {
      CountSplit(xs[1..], keep, drop);
    }
  }

  /** When no element satisfies both `a` and `b`, their counts add up to at most the total. */
  lemma {:induction false} CountDisjoint<T>(xs: seq<T>, a: T -> bool, b: T -> bool)
    requires forall i | 0 <= i < |xs| :: !(a(xs[i]) && b(xs[i]))
    ensures Count(xs, a) + Count(xs, b) <= |xs|
  {
    if xs != [] {
      CountDisjoint(xs[1..], a, b);
    }
  }

  /** `xs.map(f)`. */
  function Map<T, U>(xs: seq<T>, f: T -> U): (r: seq<U>)
    ensures |r| == |xs| && forall i | 0 <= i < |xs| :: r[i] == f(xs[i])
  {
    seq(|xs|, i requires 0 <= i < |xs| => f(xs[i]))
  }

  /** `xs.slice(0, n)` for `n >= 0`: the first `n` elements, or all of them. */
  function Take<T>(xs: seq<T>, n: nat): (r: seq<T>)
    ensures |r| == if n < |xs| then n else |xs|
    ensures r == xs[..|r|]
  {
    if n < |xs| then xs[..n] else xs
  }

  /** Java `stream.limit(n)`: throws IllegalArgumentException for a negative `n`. */
  function Limit<T>(xs: seq<T>, n: int): (r: Option<seq<T>>)
    ensures r.None? <==> n < 0
    ensures r.Some? ==> |r.value| <= n && |r.value| <= |xs| && r.value == xs[..|r.value|]
    ensures r.Some? ==> |r.value| == if n <= |xs| then n else |xs|
  {
    if n < 0 then None else Some(Take(xs, n))
  }
}
