/** DRAM geometry and what a bank allows: ACTIVATE only when closed, column access only on the
open row, PRECHARGE only when open, REFRESH only with all banks closed (JESD79-4, sections
4.22, 4.23 and 4.26). */
module DramBanks {

  // Default organisation: 8 Gb x16, banks in pairs of different bank groups.
  const PAIRS: nat := 4
  const BANKS: nat := 8
  const ROWS: nat := 0x10000
  const COLS: nat := 1024

  /** 32-bit words in one row of a bank pair. */
  const PAIR_ROW_WORDS: nat := 4096

  /** Words in the address space. */
  const ADDRESSES: nat := 0x4000_0000

  /** Address bits, in words: 4 bits in the burst, 1 low bank bit, 7 column bits, 2 high bank
      bits, 16 row bits. */
  function BankOf(a: nat): (b: nat)
    ensures b < BANKS && b / 2 == a / PAIR_ROW_WORDS % PAIRS
  {
    a / 16 % 2 + 2 * (a / PAIR_ROW_WORDS % PAIRS)
  }

  function RowOf(a: nat): (r: nat)
    ensures r < ROWS
  {
    a / PAIR_ROW_WORDS / PAIRS % ROWS
  }

  /** Low three column bits select within a burst and are masked. */
  function ColOf(a: nat): (c: nat)
    ensures c < COLS && c % 8 == 0
  {
    a / 32 % 128 * 8
  }

  /** Pair and row together are the high part of the address. */
  function KeyOf(a: nat): nat {
    a / PAIR_ROW_WORDS
  }

  lemma KeyDecides(a: nat, b: nat)
    requires a < ADDRESSES && b < ADDRESSES
    ensures KeyOf(a) == KeyOf(b) <==> BankOf(a) / 2 == BankOf(b) / 2 && RowOf(a) == RowOf(b)
  {
    assert KeyOf(a) == KeyOf(a) / PAIRS * PAIRS + KeyOf(a) % PAIRS;
    assert KeyOf(b) == KeyOf(b) / PAIRS * PAIRS + KeyOf(b) % PAIRS;
    assert KeyOf(a) / PAIRS < ROWS && KeyOf(b) / PAIRS < ROWS;
  }

  // ----- One bank

  datatype Op = Pre | Act(row: nat) | Cas(casRow: nat, col: nat, write: bool, autoPre: bool)

  datatype BankState = Closed | Open(row: nat)

  predicate Allowed(s: BankState, op: Op) {
    match op
    case Pre => s.Open?
    case Act(_) => s.Closed?
    case Cas(row, _, _, _) => s == Open(row)
  }

  function Next(s: BankState, op: Op): BankState {
    match op
    case Pre => Closed
    case Act(row) => Open(row)
    case Cas(_, _, _, autoPre) => if autoPre then Closed else s
  }

  function After(ops: seq<Op>): BankState {
    if ops == [] then Closed else Next(After(ops[..|ops| - 1]), ops[|ops| - 1])
  }

  predicate Legal(ops: seq<Op>) {
    ops == [] || (Legal(ops[..|ops| - 1]) && Allowed(After(ops[..|ops| - 1]), ops[|ops| - 1]))
  }

  lemma LegalAppend(ops: seq<Op>, op: Op)
    ensures Legal(ops + [op]) <==> Legal(ops) && Allowed(After(ops), op)
    ensures After(ops + [op]) == Next(After(ops), op)
  {
    assert (ops + [op])[..|ops|] == ops;
  }

  lemma {:induction false} LegalPrefix(ops: seq<Op>, more: seq<Op>)
    requires Legal(ops + more)
    ensures Legal(ops)
  {
    if more != [] {
      assert (ops + more)[..|ops + more| - 1] == ops + more[..|more| - 1];
      LegalPrefix(ops, more[..|more| - 1]);
    } else {
      assert ops + more == ops;
    }
  }

  // ----- Commands as the generator queues them

  datatype Access = NoAccess | Read | Write

  datatype Cmd = Cmd(row: nat, col: nat, prePre: bool, act: bool, access: Access, prePost: bool)

  /** A command that ends in an access or a precharge of its own. */
  predicate Finishes(c: Cmd) {
    c.access != NoAccess || c.prePost
  }

  /** What the arbiter issues for a command, in this order. */
  function Ops(c: Cmd): seq<Op> {
    (if c.prePre then [Pre] else [])
    + (if c.act then [Act(c.row)] else [])
    + if c.access != NoAccess then [Cas(c.row, c.col, c.access == Write, c.prePost)]
      else if c.prePost then [Pre] else []
  }

  function AllOps(cs: seq<Cmd>): seq<Op> {
    if cs == [] then [] else AllOps(cs[..|cs| - 1]) + Ops(cs[|cs| - 1])
  }

  lemma {:induction false} AllOpsConcat(cs: seq<Cmd>, more: seq<Cmd>)
    ensures AllOps(cs + more) == AllOps(cs) + AllOps(more)
  {
    hide Ops;
    if more == [] {
      assert cs + more == cs;
    } else {
      var front, last := more[..|more| - 1], more[|more| - 1];
      AllOpsConcat(cs, front);
      assert (cs + more)[..|cs + more| - 1] == cs + front && (cs + more)[|cs + more| - 1] == last;
      assert AllOps(cs + more) == AllOps(cs + front) + Ops(last);
    }
  }

  lemma {:induction false} AllOpsHead(cs: seq<Cmd>)
    requires cs != []
    ensures AllOps(cs) == Ops(cs[0]) + AllOps(cs[1..])
  {
    hide Ops;
    if |cs| > 1 {
      AllOpsHead(cs[..|cs| - 1]);
      assert cs[..|cs| - 1][1..] == cs[1..][..|cs| - 2];
      assert cs[1..][|cs| - 2] == cs[|cs| - 1];
    } else {
      assert cs[..0] == [] && cs[1..] == [];
    }
  }

  /** Times a row is opened. */
  function Activations(ops: seq<Op>, row: nat): nat {
    if ops == [] then 0
    else Activations(ops[..|ops| - 1], row) + if ops[|ops| - 1] == Act(row) then 1 else 0
  }

  lemma {:induction false} ActivationsAppend(ops: seq<Op>, more: seq<Op>, row: nat)
    ensures Activations(ops + more, row) == Activations(ops, row) + Activations(more, row)
  {
    if more == [] {
      assert ops + more == ops;
    } else {
      ActivationsAppend(ops, more[..|more| - 1], row);
      assert (ops + more)[..|ops + more| - 1] == ops + more[..|more| - 1];
    }
  }

  /** A column access without the precharge that may ride on it. */
  datatype Column = Column(row: nat, col: nat, write: bool)

  function Columns(ops: seq<Op>): seq<Column> {
    if ops == [] then []
    else
      Columns(ops[..|ops| - 1])
      + match ops[|ops| - 1]
        case Cas(row, col, write, _) => [Column(row, col, write)]
        case _ => []
  }

  lemma {:induction false} ColumnsAppend(ops: seq<Op>, more: seq<Op>)
    ensures Columns(ops + more) == Columns(ops) + Columns(more)
  {
    if more == [] {
      assert ops + more == ops;
    } else {
      ColumnsAppend(ops, more[..|more| - 1]);
      assert (ops + more)[..|ops + more| - 1] == ops + more[..|more| - 1];
    }
  }

  // ----- One command on one bank

  function AfterAct(s: BankState, c: Cmd): BankState {
    if c.act then Open(c.row) else if c.prePre then Closed else s
  }

  predicate CmdAllowed(s: BankState, c: Cmd) {
    && (c.prePre ==> s.Open?)
    && (c.act ==> c.prePre || s.Closed?)
    && (c.access != NoAccess ==> AfterAct(s, c) == Open(c.row))
    && (c.access == NoAccess && c.prePost ==> AfterAct(s, c).Open?)
  }

  function CmdNext(s: BankState, c: Cmd): BankState {
    if c.prePost then Closed else AfterAct(s, c)
  }

  /** A command is legal, in all it expands to, exactly if its flags fit the bank's state. */
  lemma CmdIsLegal(ops: seq<Op>, c: Cmd)
    ensures Legal(ops + Ops(c)) <==> Legal(ops) && CmdAllowed(After(ops), c)
    ensures After(ops + Ops(c)) == CmdNext(After(ops), c)
  {
    hide Legal, After;
    var a := if c.prePre then [Pre] else [];
    var b := if c.act then [Act(c.row)] else [];
    var d := if c.access != NoAccess then [Cas(c.row, c.col, c.access == Write, c.prePost)]
             else if c.prePost then [Pre] else [];
    LegalMaybe(ops, a);
    LegalMaybe(ops + a, b);
    LegalMaybe(ops + a + b, d);
    assert ops + Ops(c) == ops + a + b + d;
  }

  lemma LegalMaybe(ops: seq<Op>, more: seq<Op>)
    requires |more| <= 1
    ensures more == [] ==> ops + more == ops
    ensures |more| == 1 ==> (Legal(ops + more) <==> Legal(ops) && Allowed(After(ops), more[0]))
    ensures |more| == 1 ==> After(ops + more) == Next(After(ops), more[0])
  {
    if |more| == 1 {
      assert more == [more[0]];
      LegalAppend(ops, more[0]);
    }
  }

  /** What a command adds to the column accesses and activations of its bank. */
  lemma CmdCounts(ops: seq<Op>, c: Cmd, row: nat)
    ensures Columns(ops + Ops(c))
         == Columns(ops) + if c.access != NoAccess then [Column(c.row, c.col, c.access == Write)] else []
    ensures Activations(ops + Ops(c), row) == Activations(ops, row) + if c.act && c.row == row then 1 else 0
  {
    hide Columns, Activations;
    var a := if c.prePre then [Pre] else [];
    var b := if c.act then [Act(c.row)] else [];
    var d := if c.access != NoAccess then [Cas(c.row, c.col, c.access == Write, c.prePost)]
             else if c.prePost then [Pre] else [];
    var o1 := ops + a;
    var o2 := o1 + b;
    var o3 := o2 + d;
    assert ops + Ops(c) == o3;
    CountsMaybe(ops, a, row);
    assert Columns(o1) == Columns(ops) && Activations(o1, row) == Activations(ops, row);
    CountsMaybe(o1, b, row);
    assert Columns(o2) == Columns(ops);
    CountsMaybe(o2, d, row);
  }

  lemma CountsMaybe(ops: seq<Op>, more: seq<Op>, row: nat)
    requires |more| <= 1
    ensures more == [] ==> ops + more == ops
    ensures |more| == 1 ==>
              && Columns(ops + more) == Columns(ops)
                   + (if more[0].Cas? then [Column(more[0].casRow, more[0].col, more[0].write)] else [])
              && Activations(ops + more, row) == Activations(ops, row) + if more[0] == Act(row) then 1 else 0
  {
    if |more| == 1 {
      assert (ops + more)[..|ops|] == ops;
    }
  }
}
