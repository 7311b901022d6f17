/** The execute pipeline: a ring of stages and a side buffer that keeps a division back while
the divider works. */
module ExecuteStages {
  import opened Arith
  import opened ScalarCode
  import opened Ringbuffers

  /** Latency of the divider. */
  const DIVIDER: nat := 8

  /** An instruction as decode hands it over. */
  datatype Issued = Issued(insn: Insn, onSb: bool)

  predicate Ready(i: Issued) {
    i.onSb == i.insn.dst.To?
  }

  /** What an instruction leaves in the pipeline. */
  function Result(alu: Alu, i: Issued, operands: seq<int>, killed: bool): Entry
    requires |i.insn.srcs| <= |operands|
  {
    Entry(i.onSb, !killed && i.insn.dst.To?, if i.insn.dst.To? then i.insn.dst.r else 0,
          alu(i.insn.opcode, operands[..|i.insn.srcs|]))
  }

  function DivHold(stages: nat): nat {
    if stages < DIVIDER then DIVIDER - stages else 0
  }

  /** Clocks an instruction is kept beside the ring. */
  function Hold(i: Insn, stages: nat, killed: bool): nat {
    if i.divides && !killed then DivHold(stages) else 0
  }

  function Padding(n: nat): (p: seq<Entry>)
    ensures |p| == n && Bubbles(p)
  {
    seq(n, _ => EMPTY)
  }

  /** An entry that is kept back for h clocks leaves bubbles ahead of it. */
  function Delayed(e: Entry, h: nat): (p: seq<Entry>)
    ensures |p| == if h > 0 then h else 1
  {
    if h > 0 then Padding(h - 1) + [e] else [e]
  }

  class ExecuteStage {
    const pipe: Ringbuffer<Entry>
    const alu: Alu
    var sidebuf: Entry
    var hold: nat
    var out: Entry  // committed, seen by register file and scoreboard in the next clock

    function Stages(): nat {
      pipe.buf.Length
    }

    ghost predicate Valid()
      reads pipe
    {
      pipe.Valid()
    }

    /** Everything on its way, oldest first. */
    ghost function Chain(): (c: seq<Entry>)
      reads this, pipe, pipe.buf
      requires Valid()
      ensures |c| == Stages() + hold && c[0] == out
    {
      [out] + pipe.Pending() + if hold > 0 then Delayed(sidebuf, hold) else []
    }

    constructor (stages: nat, alu: Alu)
      requires stages > 0
      ensures Valid() && Stages() == stages && this.alu == alu && hold == 0
      ensures Bubbles(Chain()) && Chain()[0] == EMPTY
      ensures fresh(pipe) && fresh(pipe.buf)
    {
      var p := new Ringbuffer(stages, EMPTY);
      pipe := p;
      this.alu := alu;
      sidebuf, hold, out := EMPTY, 0, EMPTY;
    }

    /** One clock: the chain moves on by one and a new result joins it, unless a division is
        kept back. On a kill, the instruction coming in and those in the ring lose their
        effect. */
    method Clock(i: Issued, operands: seq<int>, kill: bool)
      requires Valid() && |i.insn.srcs| <= |operands|
      modifies this, pipe, pipe.buf
      ensures Valid()
      ensures old(hold) > 0 ==> Chain() == old(Chain())[1..] && hold == old(hold) - 1
      ensures old(hold) == 0 ==>
                var h := Hold(i.insn, Stages(), kill);
                var rest := old(Chain())[1..];
                && hold == (if h > 0 then h - 1 else 0)
                && Chain() == (if kill then KillAll(rest) else rest) + Delayed(Result(alu, i, operands, kill), h)
      ensures old(hold) == 0 && kill ==> forall e :: e in Chain() ==> !e.write
      ensures old(hold) == 0 ==>
                && Chain()[|Chain()| - 1] == Result(alu, i, operands, kill)
                && |Chain()| == if i.insn.divides && !kill then Max(Stages(), DIVIDER - 1) else Stages()
    {
      hide Delayed, InOrder, KillAll;
      if hold == 0 {
        if kill {
          pipe.UpdateAll(e => Killed(e));
          assert pipe.Pending() == KillAll(old(pipe.Pending()));
        }
        sidebuf := Result(alu, i, operands, kill);
        hold := Hold(i.insn, Stages(), kill);
        DelayedLast(sidebuf, hold);
      }
      ghost var h := hold;
      Advance();
      if old(hold) == 0 && kill {
        NothingWritten(old(Chain())[1..], Result(alu, i, operands, kill), h);
      }
    }

    /** The ring takes the side buffer once it is not kept back any more. */
    method Advance()
      requires Valid()
      modifies `hold, `out, pipe, pipe.buf
      ensures Valid() && hold == if old(hold) > 0 then old(hold) - 1 else 0
      ensures Chain() == old(pipe.Pending()) + Delayed(sidebuf, old(hold))
    {
      hide Delayed, InOrder;
      ghost var rest, h := pipe.Pending(), hold;
      hold := if hold > 0 then hold - 1 else 0;
      DelayedSteps(sidebuf, h);
      if hold == 0 {
        out := pipe.SwapHead(sidebuf);
        assert [out] + pipe.Pending() == rest + [sidebuf];
      } else {
        out := pipe.SwapHead(EMPTY);
        ghost var tail := Delayed(sidebuf, hold);
        assert ([out] + pipe.Pending()) + tail == (rest + [EMPTY]) + tail == rest + ([EMPTY] + tail);
      }
    }
  }

  /** What is left after a kill writes nothing. */
  lemma NothingWritten(rest: seq<Entry>, e: Entry, h: nat)
    requires !e.write
    ensures forall x :: x in KillAll(rest) + Delayed(e, h) ==> !x.write
  {
  }

  lemma {:induction false} NoWritesNoEffect(regs: seq<int>, c: seq<Entry>)
    requires forall e :: e in c ==> !e.write
    ensures Sound(c, |regs|) && Retired(regs, c) == regs
  {
    if c != [] {
      NoWritesNoEffect(regs, c[1..]);
    }
  }

  lemma DelayedLast(e: Entry, h: nat)
    ensures Delayed(e, h)[|Delayed(e, h)| - 1] == e
  {
  }

  lemma DelayedSteps(e: Entry, h: nat)
    ensures h <= 1 ==> Delayed(e, h) == [e]
    ensures h > 1 ==> Delayed(e, h) == [EMPTY] + Delayed(e, h - 1)
  {
    if h > 1 {
      assert Padding(h - 1) == [EMPTY] + Padding(h - 2);
    }
  }

  /** A result joins the chain behind everything else. */
  lemma Joins(regs: seq<int>, c: seq<Entry>, e: Entry, h: nat)
    requires Sound(c, |regs|) && Sound([e], |regs|)
    ensures Sound(c + Delayed(e, h), |regs|)
    ensures Retired(regs, c + Delayed(e, h)) == Written(Retired(regs, c), e)
    ensures Dests(c + Delayed(e, h)) == Dests(c) + Dest(e)
    ensures !e.dequeue ==> DrainTime(c + Delayed(e, h)) == DrainTime(c)
  {
    hide DrainTime, Retired, Dests;
    var pad := if h > 0 then Padding(h - 1) else [];
    var one := [e];
    assert e in one;
    assert Delayed(e, h) == pad + one && c + Delayed(e, h) == (c + pad) + one;
    BubblesDoNothing(regs, pad);
    BubblesDoNothing(Retired(regs, c), pad);
    RetiredAppend(regs, c, pad);
    DestsAppend(c, pad);
    assert Dests(c + pad) == Dests(c);
    RetiredAppend(regs, c + pad, one);
    DestsAppend(c + pad, one);
    OneEntry(Retired(regs, c), e);
    DrainAppendBubbles(c, pad);
    if !e.dequeue {
      DrainAppendBubbles(c + pad, one);
    }
  }

  lemma OneEntry(regs: seq<int>, e: Entry)
    requires e.write ==> e.reg < |regs| && e.dequeue
    ensures Retired(regs, [e]) == Written(regs, e) && Dests([e]) == Dest(e)
  {
    assert [e][1..] == [];
  }

  /** One clock of the delay line. */
  lemma HeadLeaves(regs: seq<int>, c: seq<Entry>)
    requires c != [] && Sound(c, |regs|)
    ensures Sound([c[0]], |regs|) && Sound(c[1..], |regs|)
    ensures Retired(Written(regs, c[0]), c[1..]) == Retired(regs, c)
    ensures Dests(c) == Dest(c[0]) + Dests(c[1..])
    ensures DrainTime(c[1..]) == if DrainTime(c) > 0 then DrainTime(c) - 1 else 0
  {
  }

  /** The chain after one clock of execute. */
  function Moved(alu: Alu, c: seq<Entry>, i: Issued, operands: seq<int>, kill: bool, hold: nat,
                 stages: nat): seq<Entry>
    requires c != [] && |i.insn.srcs| <= |operands|
  {
    if hold > 0 then c[1..]
    else (if kill then KillAll(c[1..]) else c[1..])
         + Delayed(Result(alu, i, operands, kill), Hold(i.insn, stages, kill))
  }

  /** The oldest entry leaves, the instruction handed over joins; nothing else changes. */
  lemma DelayLine(alu: Alu, regs: seq<int>, c: seq<Entry>, i: Issued, operands: seq<int>, kill: bool,
                  hold: nat, stages: nat)
    requires c != [] && Sound(c, |regs|) && Ready(i) && Fits(i.insn, |regs|) && |operands| == 3
    requires hold > 0 ==> i.insn == NOP
    ensures Sound([c[0]], |regs|) && (c[0].write ==> c[0].reg < |regs|)
    ensures var now, moved := Written(regs, c[0]), Moved(alu, c, i, operands, kill, hold, stages);
            && Sound(moved, |regs|)
            && Dests(c) == Dest(c[0]) + Dests(c[1..])
            && Dests(moved) == Dests(c[1..]) + (if i.insn.dst.To? then [i.insn.dst.r] else [])
            && (!kill ==> Retired(now, moved) == Written(Retired(regs, c), Result(alu, i, operands, false)))
            && (!i.insn.dst.To? ==> DrainTime(moved) == if DrainTime(c) > 0 then DrainTime(c) - 1 else 0)
  {
    hide Retired, Dests, DrainTime, KillAll, Delayed, Hold;
    HeadLeaves(regs, c);
    if hold == 0 {
      var now := Written(regs, c[0]);
      var rest := if kill then KillAll(c[1..]) else c[1..];
      KillKeepsDests(c[1..]);
      KillIsSound(c[1..], |regs|);
      Joins(now, rest, Result(alu, i, operands, kill), Hold(i.insn, stages, kill));
    }
  }

  lemma KillIsSound(c: seq<Entry>, n: nat)
    requires Sound(c, n)
    ensures Sound(KillAll(c), n)
  {
  }
}
