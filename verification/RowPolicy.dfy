/** What the two precharge policies amount to: the operations of each bank, from the requests alone.

The generator keeps a register of the open row of every bank; here only earlier requests count. */
module RowPolicies {
  import opened Arith
  import opened DramBanks
  import opened CommandGeneration

  // ----- As late as possible

  /** Row of the last of the first n requests on bank b, -1 if there is none. */
  function RowBefore(rs: seq<Request>, n: nat, b: nat): (row: int)
    requires n <= |rs|
    ensures -1 <= row < ROWS
  {
    if n == 0 then -1
    else if BankOf(rs[n - 1].addr) == b then RowOf(rs[n - 1].addr)
    else RowBefore(rs, n - 1, b)
  }

  /** Operations of bank b in a sequence of n requests. A row stays open until another row of its
      bank is wanted; the last request of the sequence closes all banks. */
  function LateOps(rs: seq<Request>, n: nat, b: nat): seq<Op>
    requires n <= |rs|
  {
    if n == 0 then [] else LateOps(rs, n - 1, b) + LateStep(rs, n - 1, b)
  }

  function LateStep(rs: seq<Request>, i: nat, b: nat): seq<Op>
    requires i < |rs|
  {
    var r, was, end := rs[i], RowBefore(rs, i, b), i == |rs| - 1;
    var row := RowOf(r.addr);
    if b == BankOf(r.addr) then
      (if was == row then [] else (if was >= 0 then [Pre] else []) + [Act(row)])
      + [Cas(row, ColOf(r.addr), r.write, end)]
    else if end && was >= 0 then [Pre]
    else []
  }

  /** How often bank b needs row `row` when another one, or none, was its last. */
  function Openings(rs: seq<Request>, n: nat, b: nat, row: nat): nat
    requires n <= |rs|
  {
    if n == 0 then 0
    else
      var r := rs[n - 1];
      Openings(rs, n - 1, b, row)
      + if BankOf(r.addr) == b && RowOf(r.addr) == row && RowBefore(rs, n - 1, b) != row then 1 else 0
  }

  lemma {:induction false} LateActivations(rs: seq<Request>, n: nat, b: nat, row: nat)
    requires n <= |rs|
    ensures Activations(LateOps(rs, n, b), row) == Openings(rs, n, b, row)
  {
    hide BankOf, RowOf, ColOf, LateStep, RowBefore, Activations;
    if n == 0 {
      NoActivations(row);
    } else {
      LateActivations(rs, n - 1, b, row);
      var step := LateStep(rs, n - 1, b);
      ActivationsAppend(LateOps(rs, n - 1, b), step, row);
      StepActivations(rs, n - 1, b, row);
    }
  }

  lemma NoActivations(row: nat)
    ensures Activations([], row) == 0
  {
  }

  lemma StepActivations(rs: seq<Request>, i: nat, b: nat, row: nat)
    requires i < |rs|
    ensures Activations(LateStep(rs, i, b), row)
         == if BankOf(rs[i].addr) == b && RowOf(rs[i].addr) == row && RowBefore(rs, i, b) != row then 1 else 0
  {
    hide BankOf, RowOf, ColOf, RowBefore;
    var step := LateStep(rs, i, b);
    if |step| == 1 {
      assert step == [] + [step[0]];
      OneOp([], step[0], row);
    } else if |step| == 2 {
      assert step == ([] + [step[0]]) + [step[1]];
      OneOp([], step[0], row);
      OneOp([] + [step[0]], step[1], row);
    } else if |step| == 3 {
      assert step == (([] + [step[0]]) + [step[1]]) + [step[2]];
      OneOp([], step[0], row);
      OneOp([] + [step[0]], step[1], row);
      OneOp(([] + [step[0]]) + [step[1]], step[2], row);
    }
  }

  lemma OneOp(ops: seq<Op>, op: Op, row: nat)
    ensures Activations(ops + [op], row) == Activations(ops, row) + if op == Act(row) then 1 else 0
  {
    assert (ops + [op])[..|ops|] == ops;
  }

  /** The register of bank b within a sequence. */
  predicate HoldsLate(rs: seq<Request>, n: nat, b: nat, rowWas: nat)
    requires n <= |rs|
  {
    rowWas == if RowBefore(rs, n, b) < 0 then INACTIVE else RowBefore(rs, n, b)
  }

  lemma LateMakes(rs: seq<Request>, i: nat, b: nat, rowWas: nat)
    requires i < |rs| && rs[i].policy == Alap && (rs[i].addrNext == NO_NEXT <==> i == |rs| - 1)
    requires HoldsLate(rs, i, b, rowWas)
    ensures AllOps(Makes(rs[i], b, rowWas)) == LateStep(rs, i, b)
    ensures i < |rs| - 1 ==> HoldsLate(rs, i + 1, b, RowAfter(rs[i], b, rowWas))
  {
    hide BankOf, RowOf, ColOf;
    OneMade(Makes(rs[i], b, rowWas));
  }

  lemma OneMade(cs: seq<Cmd>)
    requires |cs| <= 1
    ensures AllOps(cs) == if cs == [] then [] else Ops(cs[0])
  {
    if |cs| == 1 {
      assert cs[..0] == [];
    }
  }

  // ----- Linear

  /** Bank b has been used for the pair and row that the n-th request goes on with. */
  predicate UsedInRun(rs: seq<Request>, n: nat, b: nat)
    requires n <= |rs|
  {
    && n > 0 && KeyOf(rs[n - 1].addrNext) == KeyOf(rs[n - 1].addr)
    && (BankOf(rs[n - 1].addr) == b || UsedInRun(rs, n - 1, b))
  }

  /** Operations of bank b in a stride of n requests. The first access to a bank in a pair and row opens
      it; the last access in that pair and row closes both banks of the pair. */
  function RunOps(rs: seq<Request>, n: nat, b: nat): seq<Op>
    requires n <= |rs|
  {
    if n == 0 then [] else RunOps(rs, n - 1, b) + RunStep(rs, n - 1, b)
  }

  function RunStep(rs: seq<Request>, i: nat, b: nat): seq<Op>
    requires i < |rs|
  {
    var r, used := rs[i], UsedInRun(rs, i, b);
    var row, end := RowOf(r.addr), KeyOf(r.addrNext) != KeyOf(r.addr);
    if b == BankOf(r.addr) then (if used then [] else [Act(row)]) + [Cas(row, ColOf(r.addr), r.write, end)]
    else if end && used then [Pre]
    else []
  }

  /** The register of bank b within a stride. */
  predicate HoldsRun(rs: seq<Request>, n: nat, b: nat, rowWas: nat)
    requires n <= |rs|
  {
    rowWas == if UsedInRun(rs, n, b) then RowOf(rs[n - 1].addr) else INACTIVE
  }

  lemma RunMakes(rs: seq<Request>, i: nat, b: nat, rowWas: nat)
    requires i < |rs| && rs[i].policy == Linear && HoldsRun(rs, i, b, rowWas)
    requires rowWas != INACTIVE ==> b / 2 == BankOf(rs[i].addr) / 2 && rowWas == RowOf(rs[i].addr)
    ensures AllOps(Makes(rs[i], b, rowWas)) == RunStep(rs, i, b)
    ensures HoldsRun(rs, i + 1, b, RowAfter(rs[i], b, rowWas))
  {
    hide BankOf, RowOf, ColOf, KeyOf;
    OneMade(Makes(rs[i], b, rowWas));
  }
}
