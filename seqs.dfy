/** Sequence helpers shared by the registries. */
module Seqs {

  /** The elements of s, last first: the order a reverse-index walk meets them. */
  function Reversed<T>(s: seq<T>): (r: seq<T>)
    ensures |r| == |s|
  {
    if s == [] then [] else Reversed(s[1..]) + [s[0]]
  }

  lemma {:induction false} ReversedAppend<T>(a: seq<T>, b: seq<T>)
    ensures Reversed(a + b) == Reversed(b) + Reversed(a)
  {
    if a == [] {
      assert a + b == b;
    } else {
      assert (a + b)[1..] == a[1..] + b;
      ReversedAppend(a[1..], b);
    }
  }

  /** A prefix of a prefix is a prefix. */
  lemma PrefixOfPrefix<T>(a: seq<T>, b: seq<T>, n: nat)
    requires |b| <= |a| && a[..|b|] == b && n <= |b|
    ensures a[..n] == b[..n]
  {
    assert a[..n] == a[..|b|][..n];
  }

  /** A sequence that starts with b is b followed by the rest. */
  lemma PrefixSplit<T>(a: seq<T>, b: seq<T>)
    requires |b| <= |a| && a[..|b|] == b
    ensures a == b + a[|b|..]
  {
    assert a == a[..|b|] + a[|b|..];
  }

  /** Dropping a prefix of `a` from `a + b` drops it from `a` alone. */
  lemma SuffixAppend<T>(a: seq<T>, b: seq<T>, n: nat)
    requires n <= |a|
    ensures (a + b)[n..] == a[n..] + b
  {
  }
}
