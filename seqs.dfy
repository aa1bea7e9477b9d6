/** Sequence facts the other modules share. */
module Seqs {

  /** f applied to each element of s, in order. */
  function MapSeq<A, B>(f: A --> B, s: seq<A>): (r: seq<B>)
    requires forall i :: 0 <= i < |s| ==> f.requires(s[i])
    ensures |r| == |s|
  {
    if s == [] then [] else [f(s[0])] + MapSeq(f, s[1..])
  }

  /** A position at which x occurs in b. */
  lemma IndexOfMember<T>(b: seq<T>, x: T) returns (k: nat)
    requires x in multiset(b)
    ensures k < |b| && b[k] == x
  {
    assert x in b;
    k :| 0 <= k < |b| && b[k] == x;
  }

  lemma MultisetWithout<T>(b: seq<T>, k: nat)
    requires k < |b|
    ensures multiset(b[..k] + b[k + 1..]) == multiset(b) - multiset{b[k]}
  {
    assert b == b[..k] + [b[k]] + b[k + 1..];
  }

  lemma {:induction false} MapSeqAppend<A, B>(f: A --> B, a: seq<A>, b: seq<A>)
    requires forall i :: 0 <= i < |a| ==> f.requires(a[i])
    requires forall i :: 0 <= i < |b| ==> f.requires(b[i])
    ensures forall i :: 0 <= i < |a + b| ==> f.requires((a + b)[i])
    ensures MapSeq(f, a + b) == MapSeq(f, a) + MapSeq(f, b)
  {
    if a == [] {
      assert a + b == b;
    } else {
      assert (a + b)[0] == a[0];
      assert (a + b)[1..] == a[1..] + b;
      MapSeqAppend(f, a[1..], b);
    }
  }

  lemma MapSeqWithout<A, B>(f: A --> B, b: seq<A>, k: nat, rest: seq<A>)
    requires k < |b| && rest == b[..k] + b[k + 1..]
    requires forall i :: 0 <= i < |b| ==> f.requires(b[i])
    ensures forall i :: 0 <= i < |rest| ==> f.requires(rest[i])
    ensures multiset(MapSeq(f, b)) == multiset(MapSeq(f, rest)) + multiset{f(b[k])}
  {
    var left, right := b[..k], b[k + 1..];
    assert b == left + ([b[k]] + right);
    MapSeqAppend(f, [b[k]], right);
    MapSeqAppend(f, left, [b[k]] + right);
    MapSeqAppend(f, left, right);
    assert MapSeq(f, [b[k]]) == [f(b[k])];
  }

  /** Mapping a permutation of a sequence gives a permutation of its image. */
  lemma {:induction false} MapSeqPermute<A, B>(f: A --> B, a: seq<A>, b: seq<A>)
    requires forall i :: 0 <= i < |a| ==> f.requires(a[i])
    requires forall i :: 0 <= i < |b| ==> f.requires(b[i])
    requires multiset(a) == multiset(b)
    ensures multiset(MapSeq(f, a)) == multiset(MapSeq(f, b))
    decreases |a|
  {
    if a == [] {
      assert |b| == |multiset(b)| == 0;
    } else {
      var k := IndexOfMember(b, a[0]);
      var rest := b[..k] + b[k + 1..];
      MultisetWithout(b, k);
      assert a == [a[0]] + a[1..];
      assert multiset(a[1..]) == multiset(rest);
      MapSeqWithout(f, b, k, rest);
      MapSeqPermute(f, a[1..], rest);
    }
  }
}
