/** Registers with a write on its way, in issue order. */
module Scoreboards {
  import opened Arith
  import opened ScalarCode

  /** The slot i places after t. */
  function Slot(t: nat, i: nat, slots: nat): nat
    requires t < slots && i <= slots
  {
    if t + i < slots then t + i else t + i - slots
  }

  /** n entries of a ring from position t on. */
  function Window<T>(q: seq<T>, t: nat, n: nat): (w: seq<T>)
    requires n <= |q| && t < |q|
    ensures |w| == n
  {
    seq(n, i requires 0 <= i < n => q[Slot(t, i, |q|)])
  }

  function Distance(head: nat, tail: nat, slots: nat): nat
    requires head < slots && tail < slots
  {
    if head >= tail then head - tail else head + slots - tail
  }

  function Popped<T>(w: seq<T>): seq<T> {
    if w == [] then [] else w[1..]
  }

  class Scoreboard {
    const queue: array<nat>
    var head: nat
    var tail: nat
    var maxEntries: nat

    ghost predicate Valid()
      reads `head, `tail
    {
      head < queue.Length && tail < queue.Length <= 32
    }

    ghost function Capacity(): int {
      queue.Length - 1
    }

    ghost function Entries(): (w: seq<nat>)
      reads this, queue
      requires Valid()
      ensures |w| <= Capacity()
    {
      Window(queue[..], tail, Distance(head, tail, queue.Length))
    }

    constructor (slots: nat)
      requires 0 < slots <= 32
      ensures Valid() && fresh(queue) && queue.Length == slots && Entries() == [] && maxEntries == 0
    {
      queue := new nat[slots](_ => 0);
      head, tail, maxEntries := 0, 0, 0;
    }

    method Count() returns (n: nat)
      requires Valid()
      ensures n == |Entries()|
    {
      var h := head;
      if head < tail {
        h := h + queue.Length;
      }
      n := h - tail;
    }

    /** A pop and a push, in this order; a push on a full board and a pop of an empty one do
        nothing but raise a flag. */
    method PushPop(dequeue: bool, enqueue: bool, reg: nat) returns (overflow: bool)
      requires Valid()
      modifies this, queue
      ensures Valid()
      ensures var w := if dequeue then Popped(old(Entries())) else old(Entries());
              && Entries() == (if enqueue && |w| < Capacity() then w + [reg] else w)
              && overflow == ((dequeue && old(Entries()) == []) || (enqueue && |w| == Capacity()))
      ensures maxEntries == if old(maxEntries) < |Entries()| then |Entries()| else old(maxEntries)
    {
      overflow := false;
      if dequeue {
        overflow := Pop();
      }
      ghost var w := Entries();
      if enqueue {
        var full := Push(reg);
        overflow := overflow || full;
      }
      var n := Count();
      if n > maxEntries {
        maxEntries := n;
      }
    }

    method Pop() returns (empty: bool)
      requires Valid()
      modifies `tail
      ensures Valid() && empty == (old(Entries()) == []) && Entries() == Popped(old(Entries()))
    {
      if head == tail {
        empty := true;
      } else {
        empty := false;
        ghost var was := Entries();
        WrapOnce(tail + 1, queue.Length);
        tail := (tail + 1) % queue.Length;
        assert Entries() == was[1..];
      }
    }

    /** Full when the head is just below the tail. The subtraction is unsigned, so a tail of 0
        gives the largest number and the last slot is meant. */
    method Push(reg: nat) returns (full: bool)
      requires Valid()
      modifies `head, queue
      ensures Valid() && full == (|old(Entries())| == Capacity())
      ensures Entries() == if full then old(Entries()) else old(Entries()) + [reg]
    {
      var below := if tail == 0 then 0xffff_ffff else tail - 1;
      var last := queue.Length - 1;
      if head == if below < last then below else last {
        full := true;
      } else {
        full := false;
        ghost var was := Entries();
        queue[head] := reg;
        WrapOnce(head + 1, queue.Length);
        head := (head + 1) % queue.Length;
        assert Entries() == was + [reg];
      }
    }

    /** Read-after-write hazards of up to three requested operands. */
    method Check(wanted: seq<bool>, srcs: seq<Operand>) returns (raw: seq<bool>)
      requires Valid() && |wanted| == 3 && |srcs| <= 3
      requires forall i :: 0 <= i < 3 && wanted[i] ==> i < |srcs|
      ensures |raw| == 3
      ensures forall i :: 0 <= i < 3 ==>
                (raw[i] <==> wanted[i] && srcs[i].Register? && srcs[i].r in Entries())
    {
      raw := [false, false, false];
      for i := 0 to 3
        invariant |raw| == 3 && forall j :: i <= j < 3 ==> !raw[j]
        invariant forall j :: 0 <= j < i ==>
                    (raw[j] <==> wanted[j] && srcs[j].Register? && srcs[j].r in Entries())
      {
        if wanted[i] {
          var found := Contains(srcs[i]);
          raw := raw[i := found];
        }
      }
    }

    method Contains(src: Operand) returns (found: bool)
      requires Valid()
      ensures found == (src.Register? && src.r in Entries())
    {
      found := false;
      var e := tail;
      ghost var n := 0;
      while e != head
        invariant e < queue.Length && n <= |Entries()| && e == Slot(tail, n, queue.Length)
        invariant e == head <==> n == |Entries()|
        invariant found == (src.Register? && src.r in Entries()[..n])
        decreases |Entries()| - n
      {
        if src == Register(queue[e]) {
          found := true;
        }
        WrapOnce(e + 1, queue.Length);
        assert Entries()[..n + 1] == Entries()[..n] + [queue[e]];
        e := (e + 1) % queue.Length;
        n := n + 1;
      }
      assert Entries()[..n] == Entries();
    }
  }
}
