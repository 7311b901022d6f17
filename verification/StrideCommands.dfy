/** From a descriptor to bank commands: the bursts of the sequencer as requests to the command
generator. */
module StrideCommands {
  import opened Arith
  import opened Stride
  import opened StrideSequencing
  import opened StrideRun
  import opened DramBanks
  import opened CommandGeneration
  import opened DramSystem

  const WORDS_PER_BURST: nat := 16

  /** What the sequencer hands over for its bursts. */
  function Requests(bs: seq<Burst>, write: bool): (rs: seq<Request>)
    requires forall i :: 0 <= i < |bs| ==> 0 <= bs[i].addr && 0 <= bs[i].addrNext
    ensures |rs| == |bs|
    ensures forall i :: 0 <= i < |bs| ==> rs[i] == Request(bs[i].addr, bs[i].addrNext, write, Linear, bs[i].last)
  {
    if bs == [] then []
    else
      var b := bs[|bs| - 1];
      Requests(bs[..|bs| - 1], write) + [Request(b.addr, b.addrNext, write, Linear, b.last)]
  }

  /** The bursts of a request are a linear stride with increasing addresses. */
  lemma BurstsAreLinearStride(d: Descriptor, origin: nat, bs: seq<Burst>, write: bool)
    requires InRange(d, WORDS_PER_BURST) && Rising(d, WORDS_PER_BURST, origin, bs) && Announced(bs)
    requires origin <= d.addr
    ensures forall i :: 0 <= i < |bs| ==> 0 <= bs[i].addr && 0 <= bs[i].addrNext
    ensures IsLinearStride(Requests(bs, write)) && Increasing(Requests(bs, write))
  {
    hide EndAddr;
    AddressesBelowTop(d);
    forall i | 0 <= i < |bs|
      ensures 0 <= bs[i].addr < NO_NEXT && 0 <= bs[i].addrNext < ADDRESSES
      ensures bs[i].last <==> i == |bs| - 1
      ensures bs[i].last <==> bs[i].addrNext == NO_NEXT
    {
      if i > 0 {
        assert bs[i - 1].addr < bs[i].addr < EndAddr(d);
      }
      if i < |bs| - 1 {
        var j := i + 1;
        assert bs[i].addrNext == bs[j].addr && bs[i].addr < bs[j].addr < EndAddr(d);
      }
    }
  }

  lemma AddressesBelowTop(d: Descriptor)
    requires InRange(d, WORDS_PER_BURST)
    ensures d.addr < NO_NEXT && EndAddr(d) < NO_NEXT
  {
    MulMono(0, d.count - 1, d.period);
  }

  /** One stride request, from its descriptor to the command queues: legal, one column access for
      each window with a requested word if the cover is exact, no row of a bank opened twice, and
      all banks closed afterwards exactly if the last window is not in the top bank pair and row. */
  method CommandsOf(d: Descriptor, write: bool) returns (r: Result<seq<seq<Cmd>>>, ghost rs: seq<Request>)
    requires d.period > 0 ==> InRange(d, WORDS_PER_BURST)
    ensures r.InvalidArgument? <==> !Accepted(d, WORDS_PER_BURST)
    ensures r.Ok? ==> |r.value| == BANKS && rs != [] && d.addr - d.addr % WORDS_PER_BURST <= EndAddr(d)
    ensures r.Ok? && CoverCondition(d, d.addr % WORDS_PER_BURST) ==>
              Windows(rs) == Cover(d, WORDS_PER_BURST, d.addr - d.addr % WORDS_PER_BURST)
    ensures r.Ok? ==> forall b :: 0 <= b < BANKS ==> Columns(AllOps(r.value[b])) == Wanted(rs, |rs|, b)
    ensures r.Ok? ==> forall b :: 0 <= b < BANKS ==> Legal(AllOps(r.value[b]))
    ensures r.Ok? ==> forall b: nat, row: nat :: b < BANKS ==> Activations(AllOps(r.value[b]), row) <= 1
    ensures r.Ok? ==> ((forall b :: 0 <= b < BANKS ==> After(AllOps(r.value[b])) == Closed)
                         <==> KeyOf(rs[|rs| - 1].addr) != KeyOf(NO_NEXT))
  {
    hide InRange, IsPowerOfTwo, Cover, Columns, AllOps, Legal, Activations, After, KeyOf, CoverCondition, Wanted,
         ExactMask, PhasesExact, LinesExact, Announced, IsLinearStride, Increasing, EndAddr;
    var off := d.addr % WORDS_PER_BURST;
    var run := Sequence(d, WORDS_PER_BURST, off);
    if run.InvalidArgument? {
      return InvalidArgument, [];
    }
    var bs := run.value;
    BurstsAreLinearStride(d, d.addr - off, bs, write);
    var requests := Requests(bs, write);
    WindowsAreAddrs(bs, write);
    var queues := GenerateStride(requests);
    r, rs := Ok(queues), requests;
  }

  /** Start addresses of requests. */
  function Windows(rs: seq<Request>): (ws: seq<int>)
    ensures |ws| == |rs| && forall i :: 0 <= i < |rs| ==> ws[i] == rs[i].addr
  {
    if rs == [] then [] else Windows(rs[..|rs| - 1]) + [rs[|rs| - 1].addr]
  }

  lemma WindowsAreAddrs(bs: seq<Burst>, write: bool)
    requires forall i :: 0 <= i < |bs| ==> 0 <= bs[i].addr && 0 <= bs[i].addrNext
    ensures Windows(Requests(bs, write)) == Addrs(bs)
  {
  }
}
