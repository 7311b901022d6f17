/** The ring behind the execute pipeline: one entry goes in and one comes out a clock. */
module Ringbuffers {
  import opened Arith

  /** Entries of ring b with write slot h, oldest first. The write slot itself is stale. */
  function InOrder<T>(b: seq<T>, h: nat): (c: seq<T>)
    requires h < |b|
  {
    seq(|b| - 1, i requires 0 <= i < |b| - 1 => b[(h + |b| - 1 - i) % |b|])
  }

  class Ringbuffer<T> {
    const buf: array<T>
    var head: nat

    ghost predicate Valid()
      reads `head
    {
      head < buf.Length
    }

    ghost function Pending(): (c: seq<T>)
      reads this, buf
      requires Valid()
      ensures |c| == buf.Length - 1
    {
      InOrder(buf[..], head)
    }

    constructor (entries: nat, empty: T)
      requires entries > 0
      ensures Valid() && fresh(buf) && buf.Length == entries
      ensures forall x :: x in Pending() ==> x == empty
    {
      buf := new T[entries](_ => empty);
      head := 0;
    }

    /** A delay line of length buf.Length - 1. */
    method SwapHead(elem: T) returns (r: T)
      requires Valid()
      modifies this, buf
      ensures Valid() && [r] + Pending() == old(Pending()) + [elem]
    {
      ghost var was, h := buf[..], head;
      buf[head] := elem;
      head := (head + buf.Length - 1) % buf.Length;
      r := buf[head];
      Shifted(was, h, elem);
    }

    method GetStage(stage: nat) returns (x: T)
      requires Valid() && stage < buf.Length
      ensures x == buf[(head + stage) % buf.Length] && (stage > 0 ==> x == Pending()[buf.Length - 1 - stage])
    {
      x := buf[(head + stage) % buf.Length];
    }

    /** Change every stage alike. */
    method UpdateAll(f: T -> T)
      requires Valid()
      modifies buf
      ensures forall i :: 0 <= i < |Pending()| ==> Pending()[i] == f(old(Pending())[i])
    {
      var n := buf.Length;
      var i := n;
      while i > 0
        invariant i <= n
        invariant forall x :: 0 <= x < n ==> buf[x] == if Stage(x, head, n) >= i then f(old(buf[x])) else old(buf[x])
      {
        i := i - 1;
        StageIsUnique(head, n, i);
        var x := GetStage(i);
        buf[(head + i) % n] := f(x);
      }
    }
  }

  /** The stage that slot x is. */
  function Stage(x: nat, h: nat, n: nat): nat
    requires x < n && h < n
  {
    if x >= h then x - h else x + n - h
  }

  lemma StageIsUnique(h: nat, n: nat, i: nat)
    requires h < n && i < n
    ensures (h + i) % n < n
    ensures forall x :: 0 <= x < n ==> (Stage(x, h, n) == i <==> x == (h + i) % n)
  {
    WrapOnce(h + i, n);
  }

  lemma Shifted<T>(b: seq<T>, h: nat, elem: T)
    requires h < |b|
    ensures var n := |b|; var h1 := (h + n - 1) % n; h1 < n
    ensures var n := |b|; var h1 := (h + n - 1) % n; var b1 := b[h := elem];
            [b1[h1]] + InOrder(b1, h1) == InOrder(b, h) + [elem]
  {
    var n := |b|;
    var h1 := (h + n - 1) % n;
    var b1 := b[h := elem];
    WrapOnce(h + n - 1, n);
    var left, right := [b1[h1]] + InOrder(b1, h1), InOrder(b, h) + [elem];
    forall i | 0 <= i < n
      ensures left[i] == right[i]
    {
      if i > 0 {
        WrapOnce(h1 + n - i, n);
      }
      if i < n - 1 {
        WrapOnce(h + n - 1 - i, n);
      }
    }
  }
}
