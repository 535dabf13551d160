/** Facts about sequences and their multisets that several modules use. */
module Sequences {
  lemma Inhabited<T>(a: seq<T>)
    ensures a == [] || exists x :: x in a
  {
    if a != [] {
      assert a[0] in a;
    }
  }

  lemma FirstApart<T>(xs: seq<T>)
    requires xs != []
    ensures multiset(xs) == multiset{xs[0]} + multiset(xs[1..])
  {
    assert xs == [xs[0]] + xs[1..];
  }

  lemma LastApart<T>(xs: seq<T>)
    requires xs != []
    ensures multiset(xs) == multiset{xs[|xs| - 1]} + multiset(xs[..|xs| - 1])
  {
    assert xs == xs[..|xs| - 1] + [xs[|xs| - 1]];
  }

  /** Inserting `x` somewhere behind the first element. */
  lemma InsertedBehindFirst<T>(x: T, xs: seq<T>, rest: seq<T>)
    requires xs != [] && multiset(rest) == multiset{x} + multiset(xs[1..])
    ensures multiset([xs[0]] + rest) == multiset{x} + multiset(xs)
  {
    FirstApart(xs);
  }

  /** A beginning goes with the end it was cut from, and with no other. */
  lemma Splice<T>(all: seq<T>, n: nat, tail: seq<T>)
    requires n <= |all|
    ensures all[..n] + tail == all <==> tail == all[n..]
  {
    assert all == all[..n] + all[n..];
    if all[..n] + tail == all {
      assert (all[..n] + tail)[n..] == tail;
    }
  }

  lemma DropBehind<T>(a: seq<T>, b: seq<T>, h: nat, f: nat)
    requires h <= |b| && f == |a| + h
    ensures (a + b)[f..] == b[h..]
  {
  }
}
