/** Straight-line scalar code, what it means, and what of it is on its way to the registers. */
module ScalarCode {

  datatype Operand = Register(r: nat) | Immediate(v: int)

  datatype Dst = NoDst | To(r: nat)

  datatype Insn = Insn(opcode: nat, dst: Dst, srcs: seq<Operand>, divides: bool)

  const NOP := Insn(0, NoDst, [], false)

  /** The operation of each opcode; nothing is assumed about it. */
  type Alu = (nat, seq<int>) -> int

  predicate Fits(i: Insn, n: nat) {
    && |i.srcs| <= 3
    && (forall o :: o in i.srcs && o.Register? ==> o.r < n)
    && (i.dst.To? ==> i.dst.r < n)
  }

  predicate AllFit(prog: seq<Insn>, n: nat) {
    forall i :: i in prog ==> Fits(i, n)
  }

  function Value(regs: seq<int>, o: Operand): int
    requires o.Register? ==> o.r < |regs|
  {
    if o.Register? then regs[o.r] else o.v
  }

  function Values(regs: seq<int>, srcs: seq<Operand>): seq<int>
    requires forall o :: o in srcs && o.Register? ==> o.r < |regs|
  {
    seq(|srcs|, j requires 0 <= j < |srcs| => Value(regs, srcs[j]))
  }

  /** Sequential execution. */
  function Step(alu: Alu, regs: seq<int>, i: Insn): (now: seq<int>)
    requires Fits(i, |regs|)
    ensures |now| == |regs|
  {
    if i.dst.To? then regs[i.dst.r := alu(i.opcode, Values(regs, i.srcs))] else regs
  }

  /** The program, followed by nothing to do. */
  function At(prog: seq<Insn>, n: nat): (i: Insn)
    ensures forall k: nat :: AllFit(prog, k) ==> Fits(i, k)
  {
    if n < |prog| then prog[n] else NOP
  }

  function State(alu: Alu, prog: seq<Insn>, init: seq<int>, n: nat): (now: seq<int>)
    requires AllFit(prog, |init|)
    ensures |now| == |init|
  {
    if n == 0 then init else Step(alu, State(alu, prog, init, n - 1), At(prog, n - 1))
  }

  lemma {:induction false} PastTheEnd(alu: Alu, prog: seq<Insn>, init: seq<int>, n: nat)
    requires AllFit(prog, |init|) && n >= |prog|
    ensures State(alu, prog, init, n) == State(alu, prog, init, |prog|)
  {
    if n > |prog| {
      PastTheEnd(alu, prog, init, n - 1);
    }
  }

  // ----- On the way to the registers

  /** A pipeline entry: whether it takes an entry off the scoreboard and what it writes. A killed
      one keeps the former and loses the latter. */
  datatype Entry = Entry(dequeue: bool, write: bool, reg: nat, data: int)

  const EMPTY := Entry(false, false, 0, 0)

  function Killed(e: Entry): Entry {
    e.(write := false)
  }

  predicate Sound(c: seq<Entry>, n: nat) {
    forall e :: e in c && e.write ==> e.dequeue && e.reg < n
  }

  function Written(regs: seq<int>, e: Entry): (now: seq<int>)
    requires e.write ==> e.reg < |regs|
    ensures |now| == |regs|
  {
    if e.write then regs[e.reg := e.data] else regs
  }

  /** The registers once all of c has been written. */
  function Retired(regs: seq<int>, c: seq<Entry>): (now: seq<int>)
    requires Sound(c, |regs|)
    ensures |now| == |regs|
    decreases |c|
  {
    if c == [] then regs else Retired(Written(regs, c[0]), c[1..])
  }

  function Dest(e: Entry): seq<nat> {
    if e.dequeue then [e.reg] else []
  }

  /** Destinations of c, oldest first. */
  function Dests(c: seq<Entry>): (d: seq<nat>)
    ensures |d| <= |c|
  {
    if c == [] then [] else Dest(c[0]) + Dests(c[1..])
  }

  lemma {:induction false} RetiredAppend(regs: seq<int>, c: seq<Entry>, more: seq<Entry>)
    requires Sound(c + more, |regs|) && Sound(c, |regs|) && Sound(more, |regs|)
    ensures Retired(regs, c + more) == Retired(Retired(regs, c), more)
    decreases |c|
  {
    if c == [] {
      assert c + more == more;
    } else {
      RetiredAppend(Written(regs, c[0]), c[1..], more);
      assert (c + more)[1..] == c[1..] + more;
    }
  }

  lemma {:induction false} DestsAppend(c: seq<Entry>, more: seq<Entry>)
    ensures Dests(c + more) == Dests(c) + Dests(more)
  {
    hide Dest;
    if c == [] {
      assert c + more == more;
    } else {
      var all := c + more;
      assert all[1..] == c[1..] + more && all[0] == c[0];
      DestsAppend(c[1..], more);
      Regroup(Dest(c[0]), Dests(c[1..]), Dests(more));
    }
  }

  lemma Regroup<T>(a: seq<T>, b: seq<T>, c: seq<T>)
    ensures a + (b + c) == (a + b) + c
  {
  }

  /** A register that nothing on its way writes has its final value already. */
  lemma {:induction false} NotInFlight(regs: seq<int>, c: seq<Entry>, r: nat)
    requires Sound(c, |regs|) && r < |regs| && r !in Dests(c)
    ensures Retired(regs, c)[r] == regs[r]
    decreases |c|
  {
    if c != [] {
      assert Dests(c) == Dest(c[0]) + Dests(c[1..]);
      assert c[0] in c;
      NotInFlight(Written(regs, c[0]), c[1..], r);
    }
  }

  predicate Bubbles(c: seq<Entry>) {
    forall e :: e in c ==> !e.dequeue && !e.write
  }

  lemma {:induction false} BubblesDoNothing(regs: seq<int>, c: seq<Entry>)
    requires Bubbles(c)
    ensures Sound(c, |regs|) && Retired(regs, c) == regs && Dests(c) == []
    decreases |c|
  {
    if c != [] {
      assert c[0] in c;
      BubblesDoNothing(regs, c[1..]);
    }
  }

  lemma {:induction false} NothingInFlight(regs: seq<int>, c: seq<Entry>)
    requires Sound(c, |regs|) && Dests(c) == []
    ensures Retired(regs, c) == regs
  {
    if c != [] {
      assert c[0] in c;
      NothingInFlight(regs, c[1..]);
    }
  }

  function KillAll(c: seq<Entry>): (k: seq<Entry>)
    ensures |k| == |c| && forall i :: 0 <= i < |c| ==> k[i] == Killed(c[i])
  {
    seq(|c|, i requires 0 <= i < |c| => Killed(c[i]))
  }

  /** Clocks until the last destination in c is popped, one entry leaving a clock. */
  function DrainTime(c: seq<Entry>): (n: nat)
    ensures n <= |c|
    ensures n == 0 <==> Dests(c) == []
    decreases |c|
  {
    if c == [] then 0
    else
      var rest := DrainTime(c[1..]);
      if rest > 0 then rest + 1 else if c[0].dequeue then 1 else 0
  }

  lemma {:induction false} DrainAppendBubbles(c: seq<Entry>, more: seq<Entry>)
    requires Dests(more) == []
    ensures DrainTime(c + more) == DrainTime(c)
  {
    if c == [] {
      assert c + more == more;
    } else {
      DrainAppendBubbles(c[1..], more);
      assert (c + more)[1..] == c[1..] + more;
    }
  }

  /** Killed instructions stay on the scoreboard. */
  lemma {:induction false} KillKeepsDests(c: seq<Entry>)
    ensures Dests(KillAll(c)) == Dests(c) && DrainTime(KillAll(c)) == DrainTime(c)
  {
    if c != [] {
      KillKeepsDests(c[1..]);
      assert KillAll(c)[1..] == KillAll(c[1..]);
    }
  }
}
