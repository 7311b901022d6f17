/** From bursts to bank commands: address translation and precharge placement. */
module CommandGeneration {
  import opened Arith
  import opened DramBanks

  datatype Policy = Linear | Alap

  datatype Request = Request(addr: nat, addrNext: nat, write: bool, policy: Policy, last: bool)

  predicate ValidRequest(r: Request) {
    r.addr < ADDRESSES && r.addrNext < ADDRESSES
  }

  /** Value of an inactive bank. */
  const INACTIVE: nat := ROWS + (ROWS - 1)

  const ALL_BANKS: set<nat> := {0, 1, 2, 3, 4, 5, 6, 7}

  /** Closes a bank without an access. */
  const PRECHARGE := Cmd(0, 0, false, false, NoAccess, true)

  /** Queue and history of a bank grow by the same commands, all of which can be completed. */
  ghost predicate Grows(fifoWas: seq<Cmd>, fifoNow: seq<Cmd>, was: seq<Op>, now: seq<Op>) {
    exists cs :: fifoNow == fifoWas + cs && now == was + AllOps(cs) && forall c :: c in cs ==> Finishes(c)
  }

  /** What one request adds to bank b: one column access on its own bank, no other anywhere;
      an activation only of its own row, and only if that was not open. */
  ghost predicate Adds(r: Request, b: nat, was: seq<Op>, now: seq<Op>, rowWas: nat) {
    && Columns(now) == Columns(was)
         + (if b == BankOf(r.addr) then [Column(RowOf(r.addr), ColOf(r.addr), r.write)] else [])
    && forall row :: Activations(now, row) == Activations(was, row)
         + if b == BankOf(r.addr) && row == RowOf(r.addr) && rowWas != row then 1 else 0
  }

  /** The policy wants the banks it uses closed after this request. */
  predicate Ends(r: Request) {
    if r.policy == Alap then r.addrNext == NO_NEXT else KeyOf(r.addrNext) != KeyOf(r.addr)
  }

  /** The register of bank b after a request: the end of an as-late-as-possible sequence closes
      all banks, that of a run of linear requests those of its pair. */
  function RowAfter(r: Request, b: nat, rowWas: nat): nat {
    if Ends(r) && (r.policy == Alap || b / 2 == BankOf(r.addr) / 2) then INACTIVE
    else if b == BankOf(r.addr) then RowOf(r.addr)
    else rowWas
  }

  /** The commands a request makes for bank b. */
  function Makes(r: Request, b: nat, rowWas: nat): seq<Cmd> {
    if b == BankOf(r.addr) then
      var row := RowOf(r.addr);
      [Cmd(row, ColOf(r.addr), r.policy == Alap && rowWas != row && rowWas != INACTIVE, rowWas != row,
           if r.write then Write else Read, Ends(r))]
    else if Ends(r) && (r.policy == Alap || b / 2 == BankOf(r.addr) / 2) && rowWas != INACTIVE then [PRECHARGE]
    else []
  }

  /** The banks less than i places after `bank` around the ring. */
  ghost predicate UpTo(bank: nat, i: nat, done: set<nat>) {
    forall b: nat :: b in done <==> b < BANKS && 1 <= (b - bank) % BANKS < i
  }

  lemma UpToNext(bank: nat, i: nat, done: set<nat>)
    requires bank < BANKS && 1 <= i < BANKS && UpTo(bank, i, done)
    ensures (bank + i) % BANKS !in done && (bank + i) % BANKS != bank
    ensures UpTo(bank, i + 1, done + {(bank + i) % BANKS})
  {
    var next := (bank + i) % BANKS;
    assert (next - bank) % BANKS == i;
    forall b: nat
      ensures b in done + {next} <==> b < BANKS && 1 <= (b - bank) % BANKS < i + 1
    {
      assert b < BANKS && (b - bank) % BANKS == i ==> b == next;
    }
  }

  lemma UpToAll(bank: nat, done: set<nat>)
    requires bank < BANKS
    ensures done == {} ==> UpTo(bank, 1, done)
    ensures UpTo(bank, BANKS, done) ==> forall b: nat :: b < BANKS && b != bank ==> b in done
  {
  }

  class CmdGen {
    const activeRow: array<nat>
    const fifo: array<seq<Cmd>>
    var busy: bool
    ghost var pushed: seq<seq<Op>>  // everything queued so far, per bank

    ghost predicate Valid()
      reads `pushed, activeRow
    {
      && activeRow.Length == fifo.Length == |pushed| == BANKS
      && forall b :: 0 <= b < BANKS ==> BankOk(b)
    }

    /** The register of a bank says what the commands queued for it leave open. */
    ghost predicate BankOk(b: nat)
      reads `pushed, activeRow
      requires b < activeRow.Length && b < |pushed|
    {
      && (activeRow[b] == INACTIVE || activeRow[b] < ROWS)
      && After(pushed[b]) == if activeRow[b] == INACTIVE then Closed else Open(activeRow[b])
    }

    ghost predicate AllLegal()
      reads `pushed
      requires |pushed| == BANKS
    {
      forall b :: 0 <= b < BANKS ==> Legal(pushed[b])
    }

    ghost predicate AllClosed()
      reads activeRow
      requires activeRow.Length == BANKS
    {
      forall b :: 0 <= b < BANKS ==> activeRow[b] == INACTIVE
    }

    /** Only the banks of a's pair may be open, and only on a's row. */
    ghost predicate OnlyOpen(a: nat)
      reads activeRow
      requires activeRow.Length == BANKS
    {
      forall b :: 0 <= b < BANKS && activeRow[b] != INACTIVE ==> b / 2 == BankOf(a) / 2 && activeRow[b] == RowOf(a)
    }

    /** Under the linear policy the bank must be closed or on the right row already. */
    predicate Fits(r: Request)
      reads activeRow
      requires activeRow.Length == BANKS
    {
      r.policy == Linear ==> activeRow[BankOf(r.addr)] == INACTIVE || activeRow[BankOf(r.addr)] == RowOf(r.addr)
    }

    constructor ()
      ensures Valid() && AllClosed() && AllLegal() && !busy && pushed == seq(BANKS, _ => [])
      ensures forall b :: 0 <= b < BANKS ==> fifo[b] == []
      ensures fresh(activeRow) && fresh(fifo)
    {
      activeRow := new nat[BANKS](_ => INACTIVE);
      fifo := new seq<Cmd>[BANKS](_ => []);
      busy := false;
      pushed := seq(BANKS, _ => []);
    }

    lemma ClosedBanks()
      requires Valid() && AllClosed()
      ensures forall b :: 0 <= b < BANKS ==> After(pushed[b]) == Closed
    {
      forall b | 0 <= b < BANKS
        ensures After(pushed[b]) == Closed
      {
        assert BankOk(b);
      }
    }

    /** After a linear request in order: its bank open on its row, or no bank open at all. */
    lemma AfterLinear(r: Request, rowsWas: seq<nat>)
      requires activeRow.Length == |rowsWas| == BANKS && r.policy == Linear
      requires forall b :: 0 <= b < BANKS ==> activeRow[b] == RowAfter(r, b, rowsWas[b])
      requires forall b :: 0 <= b < BANKS && rowsWas[b] != INACTIVE ==>
                 b / 2 == BankOf(r.addr) / 2 && rowsWas[b] == RowOf(r.addr)
      ensures if KeyOf(r.addrNext) == KeyOf(r.addr) then
                OnlyOpen(r.addr) && activeRow[..] == rowsWas[BankOf(r.addr) := RowOf(r.addr)]
              else AllClosed()
    {
      hide BankOf, RowOf, KeyOf;
    }

    /** Queue a command; the queue and the history grow alike. */
    method Put(b: nat, c: Cmd)
      requires fifo.Length == |pushed| == BANKS && b < BANKS
      modifies `pushed, fifo
      ensures fifo[b] == old(fifo[b]) + [c]
      ensures forall x :: 0 <= x < BANKS && x != b ==> fifo[x] == old(fifo[x])
      ensures pushed == old(pushed)[b := old(pushed)[b] + Ops(c)]
    {
      fifo[b] := fifo[b] + [c];
      pushed := pushed[b := pushed[b] + Ops(c)];
    }

    /** Banks other than `bank` are as before, except that those in the set `closing` that were
        open got a precharge; all of these are closed now. */
    twostate predicate OthersClosed(bank: nat, closing: set<nat>)
      reads `pushed, fifo, activeRow
      requires activeRow.Length == fifo.Length == |pushed| == |old(pushed)| == BANKS && bank < BANKS
    {
      && fifo[bank] == old(fifo[bank]) && pushed[bank] == old(pushed)[bank]
      && activeRow[bank] == old(activeRow[bank])
      && forall b :: 0 <= b < BANKS && b != bank ==>
           if b in closing && old(activeRow[b]) != INACTIVE then
             && activeRow[b] == INACTIVE && fifo[b] == old(fifo[b]) + [PRECHARGE]
             && pushed[b] == old(pushed)[b] + Ops(PRECHARGE)
           else
             && activeRow[b] == old(activeRow[b]) && fifo[b] == old(fifo[b])
             && pushed[b] == old(pushed)[b]
    }

    twostate lemma OneBankChanged(b: nat)
      requires activeRow.Length == fifo.Length == |pushed| == BANKS && b < BANKS && old(Valid())
      requires BankOk(b)
      requires forall x :: 0 <= x < BANKS && x != b ==>
                 activeRow[x] == old(activeRow[x]) && pushed[x] == old(pushed)[x]
      ensures Valid()
      ensures AllLegal() <==> Legal(pushed[b]) && forall x :: 0 <= x < BANKS && x != b ==> old(Legal(pushed[x]))
    {
      forall x | 0 <= x < BANKS && x != b
        ensures BankOk(x) && (Legal(pushed[x]) <==> old(Legal(pushed[x])))
      {
        assert old(BankOk(x));
      }
    }

    /** Close a bank other than the one accessed. */
    method PrechargeBank(b: nat)
      requires Valid() && b < BANKS && activeRow[b] != INACTIVE
      modifies `pushed, fifo, activeRow
      ensures Valid() && activeRow[b] == INACTIVE && (AllLegal() <==> old(AllLegal()))
      ensures fifo[b] == old(fifo[b]) + [PRECHARGE]
      ensures forall x :: 0 <= x < BANKS && x != b ==> fifo[x] == old(fifo[x]) && activeRow[x] == old(activeRow[x])
      ensures pushed == old(pushed)[b := old(pushed)[b] + Ops(PRECHARGE)]
    {
      assert BankOk(b);
      CmdIsLegal(pushed[b], PRECHARGE);
      Put(b, PRECHARGE);
      activeRow[b] := INACTIVE;
      OneBankChanged(b);
    }

    /** At the end of an as-late-as-possible sequence all other banks are closed too. */
    method CloseOthers(bank: nat)
      requires Valid() && bank < BANKS
      modifies `pushed, fifo, activeRow
      ensures Valid() && OthersClosed(bank, ALL_BANKS) && (AllLegal() <==> old(AllLegal()))
    {
      hide Ops, Legal, After, AllLegal, BankOk, UpTo;
      ghost var done: set<nat> := {};
      UpToAll(bank, done);
      for i := 1 to BANKS
        invariant Valid() && OthersClosed(bank, done) && (AllLegal() <==> old(AllLegal()))
        invariant UpTo(bank, i, done)
      {
        var next := (bank + i) % BANKS;
        UpToNext(bank, i, done);
        if activeRow[next] != INACTIVE {
          PrechargeBank(next);
        }
        done := done + {next};
      }
      UpToAll(bank, done);
    }

    /** Accept a burst request. A linear request relies on its predecessors having left its bank
        closed or on its own row: it never precharges before the access. */
    method Accept(r: Request)
      requires Valid() && ValidRequest(r)
      modifies this, fifo, activeRow
      ensures Valid() && busy == !r.last
      ensures AllLegal() <==> old(AllLegal() && Fits(r))
      ensures forall b :: 0 <= b < BANKS ==> activeRow[b] == RowAfter(r, b, old(activeRow[b]))
      ensures forall b :: 0 <= b < BANKS ==>
                Adds(r, b, old(pushed)[b], pushed[b], old(activeRow[b]))
      ensures forall b :: 0 <= b < BANKS ==> Grows(old(fifo[b]), fifo[b], old(pushed)[b], pushed[b])
      ensures forall b :: 0 <= b < BANKS ==> fifo[b] == old(fifo[b]) + Makes(r, b, old(activeRow[b]))
    {
      hide Columns, Activations, Ops, AllOps, KeyOf, BankOf, RowOf, ColOf, CmdNext, CmdAllowed, Legal, After;
      var bank, row := BankOf(r.addr), RowOf(r.addr);
      busy := !r.last;
      var act := activeRow[bank] != row;
      var prePre, prePost;
      ghost var closing;
      prePre, prePost, closing := Precharge(r, bank, row);
      var c := Cmd(row, ColOf(r.addr), prePre, act, if r.write then Write else Read, prePost);
      Complete(bank, c);
      forall b | 0 <= b < BANKS
        ensures Adds(r, b, old(pushed)[b], pushed[b], old(activeRow[b]))
        ensures Grows(old(fifo[b]), fifo[b], old(pushed)[b], pushed[b])
        ensures fifo[b] == old(fifo[b]) + Makes(r, b, old(activeRow[b]))
      {
        if b == bank {
          OneCmd(r, b, old(pushed)[b], old(activeRow[b]), c);
          assert fifo[b] == old(fifo[b]) + [c];
        } else if b in closing && old(activeRow[b]) != INACTIVE {
          OneCmd(r, b, old(pushed)[b], old(activeRow[b]), PRECHARGE);
          assert fifo[b] == old(fifo[b]) + [PRECHARGE];
        } else {
          NoCmd(r, b, old(pushed)[b], old(activeRow[b]));
          assert fifo[b] == old(fifo[b]) + [];
        }
      }
    }

    /** Whether the policy wants a precharge before or after this access, and precharges of
        other banks. */
    method Precharge(r: Request, bank: nat, row: nat)
      returns (prePre: bool, prePost: bool, ghost closing: set<nat>)
      requires Valid() && ValidRequest(r) && bank == BankOf(r.addr) && row == RowOf(r.addr)
      modifies `pushed, fifo, activeRow
      ensures Valid() && OthersClosed(bank, closing) && (AllLegal() <==> old(AllLegal()))
      ensures prePre == (r.policy == Alap && activeRow[bank] != row && activeRow[bank] != INACTIVE)
      ensures prePost == Ends(r)
      ensures forall b :: 0 <= b < BANKS && b != bank ==> activeRow[b] == RowAfter(r, b, old(activeRow[b]))
    {
      hide Ops;
      prePre, prePost := false, false;
      closing := {};
      match r.policy {
        case Alap =>
          if row != activeRow[bank] {
            prePre := activeRow[bank] != INACTIVE;
          }
          if r.addrNext == NO_NEXT {
            prePost := true;
            closing := ALL_BANKS;
            CloseOthers(bank);
          }
        case Linear =>
          var nextBank, nextRow := BankOf(r.addrNext), RowOf(r.addrNext);
          KeyDecides(r.addr, r.addrNext);
          if nextBank / 2 != bank / 2 || nextRow != row {
            prePost := true;
            var other := if bank % 2 == 0 then bank + 1 else bank - 1;
            closing := {other};
            if activeRow[other] != INACTIVE {
              PrechargeBank(other);
            }
          }
      }
    }

    /** Queue the access itself. */
    method Complete(bank: nat, c: Cmd)
      requires Valid() && bank < BANKS && c.row < ROWS && c.access != NoAccess
      requires c.act == (activeRow[bank] != c.row)
      requires c.prePre ==> activeRow[bank] != c.row && activeRow[bank] != INACTIVE
      modifies `pushed, fifo, activeRow
      ensures Valid() && activeRow[bank] == if c.prePost then INACTIVE else c.row
      ensures AllLegal() <==>
                old(AllLegal()) && (c.prePre || old(activeRow[bank]) == c.row || old(activeRow[bank]) == INACTIVE)
      ensures fifo[bank] == old(fifo[bank]) + [c]
      ensures forall b :: 0 <= b < BANKS && b != bank ==> fifo[b] == old(fifo[b]) && activeRow[b] == old(activeRow[b])
      ensures pushed == old(pushed)[bank := old(pushed)[bank] + Ops(c)]
    {
      hide Ops;
      assert BankOk(bank);
      CmdIsLegal(pushed[bank], c);
      Put(bank, c);
      activeRow[bank] := if c.prePost then INACTIVE else c.row;
      OneBankChanged(bank);
    }

    lemma NoCmd(r: Request, b: nat, was: seq<Op>, rowWas: nat)
      requires b != BankOf(r.addr)
      ensures Adds(r, b, was, was, rowWas) && was + AllOps([]) == was
    {
    }

    lemma OneCmd(r: Request, b: nat, was: seq<Op>, rowWas: nat, c: Cmd)
      requires if b == BankOf(r.addr) then
                 c.row == RowOf(r.addr) && c.col == ColOf(r.addr) && c.act == (rowWas != c.row)
                 && c.access == if r.write then Write else Read
               else c == PRECHARGE
      ensures Adds(r, b, was, was + Ops(c), rowWas) && AllOps([c]) == Ops(c)
    {
      forall row: nat
        ensures Activations(was + Ops(c), row) == Activations(was, row) + if c.act && c.row == row then 1 else 0
      {
        CmdCounts(was, c, row);
      }
      CmdCounts(was, c, 0);
      assert [c][..0] == [];
    }
  }
}
