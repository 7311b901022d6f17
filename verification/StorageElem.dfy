/** Circular doubly linked list of memory rows. */
module StorageElements {

  /** One row. A single element is a ring of its own. */
  class StorageElem {
    const row: nat
    const data: array<int>
    ghost const bucket: nat  // hash bucket it is kept in
    var prev: StorageElem
    var next: StorageElem
    ghost var freed: bool

    constructor (row: nat, data: array<int>, ghost bucket: nat)
      ensures this.row == row && this.data == data && this.bucket == bucket
      ensures prev == next == this && !freed
    {
      this.row, this.data, this.bucket := row, data, bucket;
      prev, next := this, this;
      freed := false;
    }

    method InsertAfter(elem: StorageElem)
      requires !freed && !elem.freed && !next.freed && elem != this && elem != next
      modifies `next, next`prev, elem`next, elem`prev
      ensures elem.next == old(next) && elem.prev == this && next == elem && old(next).prev == elem
    {
      elem.next := next;
      elem.prev := this;
      next.prev := elem;
      next := elem;
    }

    method InsertBefore(elem: StorageElem)
      requires !freed && !elem.freed && !prev.freed && prev.next == this && elem != this && elem != prev
      modifies `prev, prev`next, elem`next, elem`prev
      ensures elem.next == this && elem.prev == old(prev) && prev == elem && old(prev).next == elem
    {
      prev.InsertAfter(elem);
    }

    /** Take this element out; it becomes a ring of its own. */
    method Unlink()
      requires !freed && !next.freed && !prev.freed
      modifies `next, `prev, next`prev, prev`next
      ensures prev == next == this
      ensures old(next) != this ==> old(next).prev == old(prev)
      ensures old(prev) != this ==> old(prev).next == old(next)
    {
      next.prev := prev;
      prev.next := next;
      next := this;
      prev := this;
    }

    method Delete()
      requires !freed
      modifies `freed
      ensures freed
    {
      freed := true;
    }
  }

  function Succ(i: nat, n: nat): nat
    requires i < n
  {
    if i + 1 < n then i + 1 else 0
  }

  /** Consecutive elements are linked in both directions, and the last to the first. */
  ghost predicate Ring(s: seq<StorageElem>)
    reads s`next, s`prev, s`freed
  {
    && (forall i, j :: 0 <= i < j < |s| ==> s[i] != s[j])
    && forall i :: 0 <= i < |s| ==>
         s[i].next == s[Succ(i, |s|)] && s[Succ(i, |s|)].prev == s[i] && !s[i].freed
  }

  /** A new element goes between the last and the first. */
  method Append(head: StorageElem, elem: StorageElem, ghost s: seq<StorageElem>)
    requires Ring(s) && s != [] && head == s[0] && elem !in s && !elem.freed
    modifies s`next, s`prev, elem`next, elem`prev
    ensures Ring(s + [elem])
  {
    assert head.prev == s[|s| - 1] by {
      assert Succ(|s| - 1, |s|) == 0;
    }
    ghost var t := s + [elem];
    head.InsertBefore(elem);
    forall i | 0 <= i < |t|
      ensures t[i].next == t[Succ(i, |t|)] && t[Succ(i, |t|)].prev == t[i] && !t[i].freed
    {
      if i < |s| {
        assert old(s[i].next == s[Succ(i, |s|)] && s[Succ(i, |s|)].prev == s[i]);
      }
    }
  }

  /** Delete a whole ring, each element once and none touched after it is gone: the successor is
      read before the element is unlinked, and the last element is its own successor. */
  method DeleteRing(head: StorageElem, ghost s: seq<StorageElem>)
    requires Ring(s) && s != [] && head == s[0]
    modifies s`next, s`prev, s`freed
    ensures forall e :: e in s ==> e.freed
  {
    var next := head;
    var elem;
    ghost var n := 0;
    while true
      invariant n < |s| && next == s[n] && Ring(s[n..])
      invariant forall i :: 0 <= i < n ==> s[i].freed
      decreases |s| - n
    {
      elem := next;
      next := elem.next;
      ghost var rest := s[n..];
      DeleteHead(elem, rest);
      assert rest[1..] == s[n + 1..];
      if elem == next {
        assert |rest| == 1;
        break;
      }
      n := n + 1;
    }
  }

  method DeleteHead(elem: StorageElem, ghost s: seq<StorageElem>)
    requires Ring(s) && s != [] && elem == s[0]
    modifies s`next, s`prev, elem`freed
    ensures elem.freed && Ring(s[1..])
  {
    ghost var rest := s[1..];
    assert Succ(|s| - 1, |s|) == 0;
    assert |s| > 1 ==> Succ(0, |s|) == 1;
    elem.Unlink();
    elem.Delete();
    forall i | 0 <= i < |rest|
      ensures rest[i].next == rest[Succ(i, |rest|)] && rest[Succ(i, |rest|)].prev == rest[i] && !rest[i].freed
    {
      assert rest[i] == s[i + 1];
      assert old(s[i + 1].next == s[Succ(i + 1, |s|)] && s[Succ(i + 1, |s|)].prev == s[i + 1]);
    }
  }
}
