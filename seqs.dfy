/**
 * Sequence helpers shared by the whole model: an Option type, the
 * "no duplicates" predicate, and order-preserving de-duplication, which is
 * what both a JavaScript `Set` filled in insertion order and the Python
 * "append if not already in the list" loop compute.
 */
module Seqs {

  datatype Option<T> = None | Some(value: T)

  function Min(a: int, b: int): int { if a <= b then a else b }

  function Max(a: int, b: int): int { if a <= b then b else a }

  /** The first `n` elements of `s`, or all of `s` when it is shorter. */
  function Take<T>(s: seq<T>, n: int): (r: seq<T>)
    ensures |r| == Min(Max(n, 0), |s|)
    ensures IsPrefix(r, s)
  {
    s[..Min(Max(n, 0), |s|)]
  }

  predicate IsPrefix<T(==)>(a: seq<T>, b: seq<T>) {
    |a| <= |b| && b[..|a|] == a
  }

  predicate NoDups<T(==)>(s: seq<T>) {
    forall i, j | 0 <= i < j < |s| :: s[i] != s[j]
  }

  /** Index of the first occurrence of `x` in `s`. */
  function FirstIndex<T(==)>(s: seq<T>, x: T): (r: nat)
    requires x in s
    ensures r < |s| && s[r] == x && x !in s[..r]
  {
    if s[0] == x then 0 else 1 + FirstIndex(s[1..], x)
  }

  /**
   * Keeps the first occurrence of every element, in the order of first
   * occurrence. Defined element by element from the front, the way the
   * loops that compute it run.
   */
  function Dedup<T(==)>(s: seq<T>): (r: seq<T>)
    ensures NoDups(r)
    ensures forall x | x in r :: x in s
    ensures forall x | x in s :: x in r
    ensures |r| <= |s|
    decreases |s|
  {
    if s == [] then []
    else
      var d := Dedup(s[..|s| - 1]);
      var x := s[|s| - 1];
      assert forall y | y in s :: y in s[..|s| - 1] || y == x by {
        assert s == s[..|s| - 1] + [x];
      }
      if x in d then d else d + [x]
  }

  /** An element that is not there yet can be appended without creating a duplicate. */
  lemma NoDupsSnoc<T>(s: seq<T>, x: T)
    requires NoDups(s) && x !in s
    ensures NoDups(s + [x])
  {
  }

  /** One more element: Dedup of a longer prefix, as the loops use it. */
  lemma DedupSnoc<T>(s: seq<T>, x: T)
    ensures Dedup(s + [x]) == if x in s then Dedup(s) else Dedup(s) + [x]
  {
    assert (s + [x])[..|s|] == s;
  }

  lemma {:induction false} FirstIndexSnoc<T>(s: seq<T>, x: T, y: T)
    requires y in s
    ensures FirstIndex(s + [x], y) == FirstIndex(s, y)
  {
    if s[0] != y {
      assert (s + [x])[1..] == s[1..] + [x];
      FirstIndexSnoc(s[1..], x, y);
    }
  }

  /** Elements of `Dedup(s)` appear in the order of their first occurrence in `s`. */
  lemma {:induction false} DedupKeepsFirstOccurrenceOrder<T>(s: seq<T>)
    ensures forall i, j | 0 <= i < j < |Dedup(s)| ::
      FirstIndex(s, Dedup(s)[i]) < FirstIndex(s, Dedup(s)[j])
    decreases |s|
  {
    if s != [] {
      var p, x := s[..|s| - 1], s[|s| - 1];
      assert s == p + [x];
      DedupKeepsFirstOccurrenceOrder(p);
      DedupSnoc(p, x);
      var d := Dedup(p);
      forall i, j | 0 <= i < j < |Dedup(s)|
        ensures FirstIndex(s, Dedup(s)[i]) < FirstIndex(s, Dedup(s)[j])
      {
        FirstIndexSnoc(p, x, d[i]);
        if j < |d| {
          FirstIndexSnoc(p, x, d[j]);
        } else {
          assert x !in p && Dedup(s)[j] == x;
          assert s[..|p|] == p;
        }
      }
    }
  }

  /** A sequence without duplicates is its own de-duplication. */
  lemma {:induction false} DedupOfNoDups<T>(s: seq<T>)
    requires NoDups(s)
    ensures Dedup(s) == s
    decreases |s|
  {
    if s != [] {
      var p, x := s[..|s| - 1], s[|s| - 1];
      assert s == p + [x];
      DedupOfNoDups(p);
      assert forall k | 0 <= k < |p| :: p[k] == s[k];
      DedupSnoc(p, x);
    }
  }

  /** De-duplicating the rest after a de-duplicated prefix changes nothing. */
  lemma {:induction false} DedupOfDedupThenRest<T>(a: seq<T>, b: seq<T>)
    ensures Dedup(Dedup(a) + b) == Dedup(a + b)
    decreases |b|
  {
    if b == [] {
      assert Dedup(a) + b == Dedup(a) && a + b == a;
      DedupOfNoDups(Dedup(a));
    } else {
      var p, y := b[..|b| - 1], b[|b| - 1];
      assert b == p + [y];
      DedupOfDedupThenRest(a, p);
      assert Dedup(a) + b == (Dedup(a) + p) + [y];
      assert a + b == (a + p) + [y];
      DedupSnoc(Dedup(a) + p, y);
      DedupSnoc(a + p, y);
    }
  }

  /** De-duplicating a suffix first changes nothing either. */
  lemma {:induction false} DedupOfPrefixThenDedup<T>(a: seq<T>, b: seq<T>)
    ensures Dedup(a + Dedup(b)) == Dedup(a + b)
    decreases |b|
  {
    if b == [] {
      assert a + Dedup(b) == a == a + b;
    } else {
      var p, y := b[..|b| - 1], b[|b| - 1];
      assert b == p + [y];
      DedupOfPrefixThenDedup(a, p);
      DedupSnoc(p, y);
      assert a + b == (a + p) + [y];
      DedupSnoc(a + p, y);
      if y in p {
        assert Dedup(b) == Dedup(p);
      } else {
        assert a + Dedup(b) == (a + Dedup(p)) + [y];
        DedupSnoc(a + Dedup(p), y);
      }
    }
  }

  /** Elements that are all there already add nothing: `Dedup(s + t) == Dedup(s)`. */
  lemma {:induction false} DedupAbsorbs<T>(s: seq<T>, t: seq<T>)
    requires forall x | x in t :: x in s
    ensures Dedup(s + t) == Dedup(s)
    decreases |t|
  {
    if t != [] {
      var n := |t| - 1;
      assert t == t[..n] + [t[n]];
      assert t[n] in s + t[..n];
      DedupAbsorbs(s, t[..n]);
      assert s + t == (s + t[..n]) + [t[n]];
      DedupSnoc(s + t[..n], t[n]);
    } else {
      assert s + t == s;
    }
  }

  /** `f` applied to every element of `xs`, the results concatenated in order. */
  function FlatMap<A, B>(f: A -> seq<B>, xs: seq<A>): seq<B>
    decreases |xs|
  {
    if xs == [] then [] else FlatMap(f, xs[..|xs| - 1]) + f(xs[|xs| - 1])
  }

  lemma FlatMapSnoc<A, B>(f: A -> seq<B>, xs: seq<A>, x: A)
    ensures FlatMap(f, xs + [x]) == FlatMap(f, xs) + f(x)
  {
    assert (xs + [x])[..|xs|] == xs;
  }

  /** How many times `x` occurs in `s`. */
  function Count<T(==)>(s: seq<T>, x: T): nat
    decreases |s|
  {
    if s == [] then 0 else Count(s[..|s| - 1], x) + (if s[|s| - 1] == x then 1 else 0)
  }

  /** Occurrences in a concatenation add up. */
  lemma {:induction false} CountAppend<T>(a: seq<T>, b: seq<T>, x: T)
    ensures Count(a + b, x) == Count(a, x) + Count(b, x)
    decreases |b|
  {
    if b == [] {
      assert a + b == a;
    } else {
      var n := |b| - 1;
      assert (a + b)[..|a| + n] == a + b[..n];
      CountAppend(a, b[..n], x);
    }
  }

  lemma AppendAssoc<T>(a: seq<T>, b: seq<T>, c: seq<T>)
    ensures (a + b) + c == a + (b + c)
  {
  }

  /** One more element of `s` after `a`: the prefix of `s` grows by `s[t]`. */
  lemma PrefixSnoc<T>(a: seq<T>, s: seq<T>, t: nat)
    requires t < |s|
    ensures (a + s[..t]) + [s[t]] == a + s[..t + 1]
  {
    assert s[..t + 1] == s[..t] + [s[t]];
  }

  /** A loop over `xs` that has handled `xs[..k]` and now handles `xs[k]`. */
  lemma FlatMapPrefixStep<A, B>(f: A -> seq<B>, xs: seq<A>, k: nat)
    requires k < |xs|
    ensures FlatMap(f, xs[..k + 1]) == FlatMap(f, xs[..k]) + f(xs[k])
  {
    assert xs[..k + 1][..k] == xs[..k];
  }

  lemma {:induction false} FlatMapAppend<A, B>(f: A -> seq<B>, a: seq<A>, b: seq<A>)
    ensures FlatMap(f, a + b) == FlatMap(f, a) + FlatMap(f, b)
    decreases |b|
  {
    if b == [] {
      assert a + b == a;
    } else {
      var p := b[..|b| - 1];
      assert (a + b)[..|a + b| - 1] == a + p;
      FlatMapAppend(f, a, p);
    }
  }

  lemma {:induction false} FlatMapMembership<A, B>(f: A -> seq<B>, xs: seq<A>, y: B)
    ensures y in FlatMap(f, xs) <==> exists k | 0 <= k < |xs| :: y in f(xs[k])
    decreases |xs|
  {
    if xs != [] {
      var p := xs[..|xs| - 1];
      FlatMapMembership(f, p, y);
      if exists k | 0 <= k < |p| :: y in f(p[k]) {
        var k :| 0 <= k < |p| && y in f(p[k]);
        assert xs[k] == p[k];
      }
      if exists k | 0 <= k < |xs| :: y in f(xs[k]) {
        var k :| 0 <= k < |xs| && y in f(xs[k]);
        if k < |p| { assert p[k] == xs[k]; }
      }
    }
  }

  lemma {:induction false} FlatMapLength<A, B>(f: A -> seq<B>, xs: seq<A>, bound: nat)
    requires forall k | 0 <= k < |xs| :: |f(xs[k])| <= bound
    ensures |FlatMap(f, xs)| <= bound * |xs|
    decreases |xs|
  {
    if xs != [] {
      var p := xs[..|xs| - 1];
      FlatMapLength(f, p, bound);
    }
  }
}
