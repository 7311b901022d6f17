/** Scalar register file: a write and up to three reads a clock, the write first. */
module RegisterFile {
  import opened ScalarCode

  /** Read ports of a bank and where operands are kept. */
  datatype Hazards = Hazards(ports: nat, kind: Operand -> nat, bank: Operand -> nat, row: Operand -> nat)

  /** Two requested operands in different rows of one bank. */
  predicate Clash(h: Hazards, wanted: seq<bool>, srcs: seq<Operand>, i: nat, j: nat)
    requires |wanted| == 3 && i < 3 && j < 3
    requires forall k :: 0 <= k < 3 && wanted[k] ==> k < |srcs|
  {
    && wanted[i] && wanted[j] && h.kind(srcs[i]) == h.kind(srcs[j])
    && h.bank(srcs[i]) == h.bank(srcs[j]) && h.row(srcs[i]) != h.row(srcs[j])
  }

  /** Operands that have to wait: later ones have priority. */
  function Conflicts(h: Hazards, wanted: seq<bool>, srcs: seq<Operand>): (c: seq<bool>)
    requires |wanted| == 3
    requires forall k :: 0 <= k < 3 && wanted[k] ==> k < |srcs|
    ensures |c| == 3
    ensures forall i :: 0 <= i < 3 && c[i] ==> wanted[i]
    ensures (exists i :: 0 <= i < 3 && wanted[i]) ==> exists i :: 0 <= i < 3 && wanted[i] && !c[i]
  {
    if h.ports == 1 then
      [Clash(h, wanted, srcs, 0, 1) || Clash(h, wanted, srcs, 0, 2), Clash(h, wanted, srcs, 1, 2), false]
    else if h.ports == 2 then
      [Clash(h, wanted, srcs, 0, 1) && Clash(h, wanted, srcs, 0, 2) && Clash(h, wanted, srcs, 1, 2), false, false]
    else [false, false, false]
  }

  predicate SameBank(h: Hazards, a: Operand, b: Operand) {
    h.kind(a) == h.kind(b) && h.bank(a) == h.bank(b)
  }

  /** Operand k is read from the bank of a. */
  predicate Uses(h: Hazards, wanted: seq<bool>, waits: seq<bool>, srcs: seq<Operand>, a: Operand, k: nat)
    requires |wanted| == |waits| == 3 && k < 3
    requires forall x :: 0 <= x < 3 && wanted[x] ==> x < |srcs|
  {
    wanted[k] && !waits[k] && SameBank(h, a, srcs[k])
  }

  /** Rows of the bank of a that the operands from i on need, without those that wait. */
  ghost function Rows(h: Hazards, wanted: seq<bool>, waits: seq<bool>, srcs: seq<Operand>, a: Operand, i: nat)
    : set<nat>
    requires |wanted| == |waits| == 3
    requires forall k :: 0 <= k < 3 && wanted[k] ==> k < |srcs|
  {
    set k: nat | i <= k < 3 && Uses(h, wanted, waits, srcs, a, k) :: h.row(srcs[k])
  }

  /** The row of operand k is not that of a later one. */
  predicate AnotherRow(h: Hazards, wanted: seq<bool>, waits: seq<bool>, srcs: seq<Operand>, a: Operand, k: nat)
    requires |wanted| == |waits| == 3 && k < 3
    requires forall x :: 0 <= x < 3 && wanted[x] ==> x < |srcs|
  {
    && Uses(h, wanted, waits, srcs, a, k)
    && (k < 1 && Uses(h, wanted, waits, srcs, a, 1) ==> h.row(srcs[k]) != h.row(srcs[1]))
    && (k < 2 && Uses(h, wanted, waits, srcs, a, 2) ==> h.row(srcs[k]) != h.row(srcs[2]))
  }

  lemma RowsStep(h: Hazards, wanted: seq<bool>, waits: seq<bool>, srcs: seq<Operand>, a: Operand, i: nat)
    requires |wanted| == |waits| == 3 && i < 3
    requires forall k :: 0 <= k < 3 && wanted[k] ==> k < |srcs|
    ensures var later := Rows(h, wanted, waits, srcs, a, i + 1);
            Rows(h, wanted, waits, srcs, a, i)
            == if Uses(h, wanted, waits, srcs, a, i) then later + {h.row(srcs[i])} else later
  {
    var later, now := Rows(h, wanted, waits, srcs, a, i + 1), Rows(h, wanted, waits, srcs, a, i);
    forall r
      ensures r in now <==> r in later || (Uses(h, wanted, waits, srcs, a, i) && r == h.row(srcs[i]))
    {
      if r in now {
        var k: nat :| i <= k < 3 && Uses(h, wanted, waits, srcs, a, k) && h.row(srcs[k]) == r;
        assert k == i || i + 1 <= k;
      }
    }
  }

  lemma RowsSize(h: Hazards, wanted: seq<bool>, waits: seq<bool>, srcs: seq<Operand>, a: Operand, i: nat)
    requires |wanted| == |waits| == 3 && i < 3
    requires forall k :: 0 <= k < 3 && wanted[k] ==> k < |srcs|
    ensures |Rows(h, wanted, waits, srcs, a, i)|
         == (if i == 0 && AnotherRow(h, wanted, waits, srcs, a, 0) then 1 else 0)
            + (if i <= 1 && AnotherRow(h, wanted, waits, srcs, a, 1) then 1 else 0)
            + (if AnotherRow(h, wanted, waits, srcs, a, 2) then 1 else 0)
  {
    assert Rows(h, wanted, waits, srcs, a, 3) == {};
    RowsStep(h, wanted, waits, srcs, a, 2);
    RowsStep(h, wanted, waits, srcs, a, 1);
    RowsStep(h, wanted, waits, srcs, a, 0);
    hide Uses, Rows;
  }

  const NONE := [false, false, false]

  /** An operand waits exactly if its bank has fewer read ports than it and the later operands need
      rows of that bank. */
  lemma WaitsExactly(h: Hazards, wanted: seq<bool>, srcs: seq<Operand>, i: nat)
    requires |wanted| == 3 && i < 3 && h.ports >= 1
    requires forall k :: 0 <= k < 3 && wanted[k] ==> k < |srcs|
    ensures Conflicts(h, wanted, srcs)[i] <==> wanted[i] && |Rows(h, wanted, NONE, srcs, srcs[i], i)| > h.ports
  {
    if wanted[i] {
      hide Rows;
      RowsSize(h, wanted, NONE, srcs, srcs[i], i);
    }
  }

  /** With the operands that go ahead, no bank needs more rows than it has ports. */
  lemma PortsSuffice(h: Hazards, wanted: seq<bool>, srcs: seq<Operand>, a: Operand)
    requires |wanted| == 3 && h.ports >= 1
    requires forall k :: 0 <= k < 3 && wanted[k] ==> k < |srcs|
    ensures |Rows(h, wanted, Conflicts(h, wanted, srcs), srcs, a, 0)| <= h.ports
  {
    hide Rows;
    RowsSize(h, wanted, Conflicts(h, wanted, srcs), srcs, a, 0);
  }

  class RegFile {
    const regs: array<int>
    const hazards: Hazards
    var operands: seq<int>  // latched for the execute stage

    constructor (init: seq<int>, h: Hazards)
      ensures fresh(regs) && regs[..] == init && hazards == h && |operands| == 3
    {
      regs := new int[|init|](i requires 0 <= i < |init| => init[i]);
      hazards := h;
      operands := [0, 0, 0];
      new;
      assert regs[..] == init;
    }

    method Write(e: Entry)
      requires e.write ==> e.reg < regs.Length
      modifies regs
      ensures regs[..] == Written(old(regs[..]), e)
    {
      if e.write {
        regs[e.reg] := e.data;
      }
    }

    /** Read the wanted operands that do not conflict; the other latches keep their values. */
    method Read(wanted: seq<bool>, srcs: seq<Operand>) returns (conflicts: seq<bool>)
      requires |wanted| == |operands| == 3 && |srcs| <= 3
      requires forall k :: 0 <= k < 3 && wanted[k] ==> k < |srcs|
      requires forall o :: o in srcs && o.Register? ==> o.r < regs.Length
      modifies `operands
      ensures conflicts == Conflicts(hazards, wanted, srcs) && |operands| == 3
      ensures forall p :: 0 <= p < 3 ==>
                operands[p] == if wanted[p] && !conflicts[p] then Value(regs[..], srcs[p]) else old(operands)[p]
    {
      conflicts := Conflicts(hazards, wanted, srcs);
      for p := 0 to 3
        invariant |operands| == 3
        invariant forall q :: 0 <= q < 3 ==>
                    operands[q] == if q < p && wanted[q] && !conflicts[q] then Value(regs[..], srcs[q])
                                   else old(operands)[q]
      {
        if wanted[p] && !conflicts[p] {
          operands := operands[p := Value(regs[..], srcs[p])];
        }
      }
    }
  }
}
