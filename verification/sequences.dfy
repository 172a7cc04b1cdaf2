/** Mapping a function over a sequence, and what mapping keeps: lengths,
    concatenation and permutations. */
module Sequences {

  /** `f` applied to every element, in order. */
  function MapSeq<A, B>(f: A -> B, xs: seq<A>): (r: seq<B>)
    ensures |r| == |xs|
    ensures forall i :: 0 <= i < |xs| ==> r[i] == f(xs[i])
  {
    seq(|xs|, i requires 0 <= i < |xs| => f(xs[i]))
  }

  lemma MapSeqAppend<A, B>(f: A -> B, xs: seq<A>, ys: seq<A>)
    ensures MapSeq(f, xs + ys) == MapSeq(f, xs) + MapSeq(f, ys)
  {
  }

  /** Mapping a permutation gives a permutation of the images. */
  lemma {:induction false} MapSeqPermutation<A, B>(f: A -> B, a: seq<A>, b: seq<A>)
    requires multiset(a) == multiset(b)
    ensures multiset(MapSeq(f, a)) == multiset(MapSeq(f, b))
    decreases |a|
  {
    if |a| == 0 {
      assert |b| == |multiset(b)| == 0;
    } else {
      var i := PositionOf(b, a[0]);
      var a', b' := a[..0] + a[1..], b[..i] + b[i + 1..];
      RemoveAt(a, 0);
      RemoveAt(b, i);
      MapSeqPermutation(f, a', b');
      MapSeqRestore(f, a, b, i);
    }
  }

  /** Putting one matching element back into two permuted lists. */
  lemma MapSeqRestore<A, B>(f: A -> B, a: seq<A>, b: seq<A>, i: nat)
    requires 0 < |a| && i < |b| && b[i] == a[0]
    requires multiset(MapSeq(f, a[..0] + a[1..])) == multiset(MapSeq(f, b[..i] + b[i + 1..]))
    ensures multiset(MapSeq(f, a)) == multiset(MapSeq(f, b))
  {
    MapSeqRemoveAt(f, a, 0);
    MapSeqRemoveAt(f, b, i);
  }

  /** A position holding `x`, for an `x` the list holds. */
  lemma PositionOf<A>(b: seq<A>, x: A) returns (i: nat)
    requires x in multiset(b)
    ensures i < |b| && b[i] == x
  {
    i :| 0 <= i < |b| && b[i] == x;
  }

  /** Dropping the element at `i` drops one copy of it. */
  lemma RemoveAt<A>(b: seq<A>, i: nat)
    requires i < |b|
    ensures multiset(b[..i] + b[i + 1..]) == multiset(b) - multiset{b[i]}
  {
    assert b == b[..i] + [b[i]] + b[i + 1..];
  }

  lemma MapSeqRemoveAt<A, B>(f: A -> B, b: seq<A>, i: nat)
    requires i < |b|
    ensures multiset(MapSeq(f, b)) == multiset(MapSeq(f, b[..i] + b[i + 1..])) + multiset{f(b[i])}
  {
    var l, r := MapSeq(f, b[..i]), MapSeq(f, b[i + 1..]);
    MapSeqAppend(f, b[..i], b[i + 1..]);
    assert MapSeq(f, b) == l + [f(b[i])] + r;
  }
}
