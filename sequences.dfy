/** Sequence helpers: element sets, duplicate freedom, and flattening a map. */
module Sequences {

  /** The set of elements of a sequence. */
  function Elements<T>(s: seq<T>): set<T>
  {
    set x | x in s
  }

  /** No element occurs twice. */
  predicate Distinct<T(==)>(s: seq<T>)
  {
    forall i, j :: 0 <= i < j < |s| ==> s[i] != s[j]
  }

  /** `g` applied to every element, the results concatenated in order. */
  function FlatMap<T, U>(xs: seq<T>, g: T -> seq<U>): seq<U>
  {
    if |xs| == 0 then [] else FlatMap(xs[..|xs| - 1], g) + g(xs[|xs| - 1])
  }

  /** One more element appends its image. */
  lemma FlatMapSnoc<T, U>(xs: seq<T>, x: T, g: T -> seq<U>)
    ensures FlatMap(xs + [x], g) == FlatMap(xs, g) + g(x)
  {
    assert (xs + [x])[..|xs|] == xs;
  }

  /** An element of the result comes from the image of one of the inputs, and every
      image is included. */
  lemma {:induction false} FlatMapMembership<T, U>(xs: seq<T>, g: T -> seq<U>, y: U)
    ensures y in FlatMap(xs, g) <==> exists k :: 0 <= k < |xs| && y in g(xs[k])
    decreases |xs|
  {
    if |xs| > 0 {
      var pre := xs[..|xs| - 1];
      FlatMapMembership(pre, g, y);
      if y in FlatMap(xs, g) && y !in g(xs[|xs| - 1]) {
        var k :| 0 <= k < |pre| && y in g(pre[k]);
        assert xs[k] == pre[k];
      }
      if exists k :: 0 <= k < |xs| && y in g(xs[k]) {
        var k :| 0 <= k < |xs| && y in g(xs[k]);
        if k < |pre| {
          assert pre[k] == xs[k];
        }
      }
    }
  }

  /** `h` applied to every element. */
  function MapAll<T, U>(s: seq<T>, h: T -> U): (r: seq<U>)
    ensures |r| == |s|
    ensures forall k :: 0 <= k < |s| ==> r[k] == h(s[k])
  {
    seq(|s|, k requires 0 <= k < |s| => h(s[k]))
  }

  /** When every image under `g1` is the image under `g2` mapped through `h`, the
      flattened results are related the same way. */
  lemma {:induction false} FlatMapMapAll<T, U>(xs: seq<T>, g1: T -> seq<U>, g2: T -> seq<U>, h: U -> U)
    requires forall k :: 0 <= k < |xs| ==> g1(xs[k]) == MapAll(g2(xs[k]), h)
    ensures FlatMap(xs, g1) == MapAll(FlatMap(xs, g2), h)
    decreases |xs|
  {
    if |xs| > 0 {
      var pre := xs[..|xs| - 1];
      forall k | 0 <= k < |pre| ensures g1(pre[k]) == MapAll(g2(pre[k]), h) {
        assert pre[k] == xs[k];
      }
      FlatMapMapAll(pre, g1, g2, h);
      assert MapAll(FlatMap(pre, g2) + g2(xs[|xs| - 1]), h) ==
        MapAll(FlatMap(pre, g2), h) + MapAll(g2(xs[|xs| - 1]), h);
    }
  }

  /** The elements last to first. */
  function Reversed<T>(s: seq<T>): (r: seq<T>)
    ensures |r| == |s|
    ensures forall k :: 0 <= k < |s| ==> r[k] == s[|s| - 1 - k]
  {
    seq(|s|, k requires 0 <= k < |s| => s[|s| - 1 - k])
  }

  /** Walking a sequence backwards from its end down to index `i` visits `s[i]` last. */
  lemma ReversedSuffix<T>(s: seq<T>, i: nat)
    requires i < |s|
    ensures Reversed(s[i..]) == Reversed(s[i + 1..]) + [s[i]]
  {
  }

  /** The reverse of a concatenation is the reversed parts in swapped order. */
  lemma ReversedAppend<T>(a: seq<T>, b: seq<T>)
    ensures Reversed(a + b) == Reversed(b) + Reversed(a)
  {
  }

  /** Flattening distributes over concatenation. */
  lemma {:induction false} FlatMapAppend<T, U>(a: seq<T>, b: seq<T>, g: T -> seq<U>)
    ensures FlatMap(a + b, g) == FlatMap(a, g) + FlatMap(b, g)
    decreases |b|
  {
    if |b| == 0 {
      assert a + b == a;
    } else {
      var pre := b[..|b| - 1];
      FlatMapAppend(a, pre, g);
      assert a + b == (a + pre) + [b[|b| - 1]];
      FlatMapSnoc(a + pre, b[|b| - 1], g);
      FlatMapSnoc(pre, b[|b| - 1], g);
      assert pre + [b[|b| - 1]] == b;
    }
  }
}
