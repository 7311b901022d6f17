/** Whole tiles between DRAM and scratchpad: sequencer, data queue and scratchpad together. */
module TileTransfer {
  import opened Arith
  import opened Stride
  import opened StrideArithmetic
  import opened StrideLines
  import opened StrideSequencing
  import opened StrideRun
  import opened DramBanks
  import opened StorageElements
  import opened StorageBackEnd
  import opened FlatMemory
  import opened ScratchpadMemory
  import opened DataQueues

  /** A tile whose bursts are exact in cover and placement. */
  ghost predicate Exact(d: Descriptor, off: nat, bs: seq<Burst>) {
    && d.period > 0 && InRange(d, BURST) && d.words <= d.period && off == d.addr % BURST && d.addr - off <= EndAddr(d)
    && ExactCover(d, BURST, d.addr - off, bs) && PlacementExact(d, bs)
    && (d.count == 1 || d.words <= d.dstPeriod)
  }

  ghost predicate Target(d: Descriptor, x: nat)
    requires d.period > 0
  {
    exists a: nat :: Requested(d, a) && Destination(d, a) == x
  }

  /** No two requested words share a destination. */
  lemma OneSource(d: Descriptor, a: nat, b: nat)
    requires d.period > 0 && d.count > 0 && d.words <= d.period && (d.count == 1 || d.words <= d.dstPeriod)
    requires Requested(d, a) && Requested(d, b) && Destination(d, a) == Destination(d, b)
    ensures a == b
  {
    RequestedIsPhase(d, a);
    RequestedIsPhase(d, b);
    PeriodSplit(d, a);
    PeriodSplit(d, b);
    if d.count == 1 {
      assert EndAddr(d) == d.addr + d.words;
      DivModUnique(a - d.addr, d.period, 0, a - d.addr);
      DivModUnique(b - d.addr, d.period, 0, b - d.addr);
    } else {
      var x := PeriodOf(d, a) * d.dstPeriod + Phase(d, a);
      DivModUnique(x, d.dstPeriod, PeriodOf(d, a), Phase(d, a));
      DivModUnique(x, d.dstPeriod, PeriodOf(d, b), Phase(d, b));
    }
  }

  /** Every value below the population count is that of some set bit. */
  lemma {:induction false} NthOne(mask: seq<bool>, k: nat) returns (l: nat)
    requires k < Ones(mask)
    ensures l < |mask| && mask[l] && Ones(mask[..l]) == k
  {
    var n := |mask| - 1;
    if mask[n] && Ones(mask[..n]) == k {
      l := n;
    } else {
      l := NthOne(mask[..n], k);
      assert mask[..n][..l] == mask[..l];
    }
  }

  lemma BurstIsWindow(d: Descriptor, off: nat, bs: seq<Burst>, i: nat) returns (a: nat)
    requires Exact(d, off, bs) && i < |bs|
    ensures 0 <= bs[i].addr && bs[i].addr % BURST == 0 && bs[i].addr + BURST <= ADDRESSES
    ensures bs[i].addr <= a < bs[i].addr + BURST && Requested(d, a)
  {
    hide Requested, ExactMask, PlacementExact, EndAddr, HitWindows, DivUp;
    var origin, s := d.addr - off, bs[i].addr;
    var n := DivUp(EndAddr(d) - origin, BURST);
    assert Addrs(bs)[i] in HitWindows(d, BURST, origin, n);
    HitWindowsMembers(d, BURST, origin, n);
    var j :| 0 <= j < n && s == WindowStart(origin, BURST, j) && Hit(d, BURST, s);
    if s >= EndAddr(d) {
      NothingBeyondEnd(d, BURST, s);
    }
    a :| s <= a < s + BURST && Requested(d, a);
  }

  lemma BurstIsAligned(d: Descriptor, off: nat, bs: seq<Burst>, i: nat)
    requires Exact(d, off, bs) && i < |bs|
    ensures 0 <= bs[i].addr && bs[i].addr % BURST == 0 && bs[i].addr + BURST <= ADDRESSES
    ensures |bs[i].mask| == BURST && Ones(bs[i].mask) > 0
    ensures forall l :: 0 <= l < BURST && bs[i].mask[l] ==>
              Requested(d, bs[i].addr + l) && bs[i].spOffset + Ones(bs[i].mask[..l]) == Destination(d, bs[i].addr + l)
  {
    hide Requested, Destination, ExactCover, InRange, Ones;
    var a := BurstIsWindow(d, off, bs, i);
    ExactMaskOf(d, off, bs, i);
    assert PlacedBurst(d, bs[i]);
    var l := a - bs[i].addr;
    OnesNext(bs[i].mask, l);
    OnesMonotone(bs[i].mask, l + 1, BURST);
    assert bs[i].mask[..BURST] == bs[i].mask;
  }

  lemma ExactMaskOf(d: Descriptor, off: nat, bs: seq<Burst>, i: nat)
    requires Exact(d, off, bs) && i < |bs|
    ensures ExactMask(d, BURST, bs[i])
  {
  }

  /** The words of burst i go to targets, and to all words of its scratchpad range. */
  lemma RangeIsTargets(d: Descriptor, off: nat, bs: seq<Burst>, i: nat, x: int) returns (l: nat)
    requires Exact(d, off, bs) && i < |bs| && bs[i].spOffset <= x < bs[i].spOffset + Ones(bs[i].mask)
    ensures l < BURST && |bs[i].mask| == BURST && bs[i].mask[l] && 0 <= bs[i].addr + l
    ensures Requested(d, bs[i].addr + l) && Destination(d, bs[i].addr + l) == x
    ensures bs[i].spOffset + Ones(bs[i].mask[..l]) == x
  {
    BurstIsAligned(d, off, bs, i);
    l := NthOne(bs[i].mask, x - bs[i].spOffset);
  }

  /** What the data queue is told about a burst. */
  function Reserve(burst: nat): Reservation {
    Reservation(BankOf(burst), RowOf(burst), ColOf(burst))
  }

  /** Every requested word in memory and every target in the scratchpad. */
  ghost predicate Covered(d: Descriptor, sp: StorageArray, mem: map<nat, int>)
    requires d.period > 0 && sp.Valid()
  {
    forall a: nat :: Requested(d, a) ==> a in mem && 0 <= Destination(d, a) && sp.Inside(Destination(d, a))
  }

  /** Burst i is in the scratchpad. */
  ghost predicate Arrived(d: Descriptor, sp: StorageArray, b: Burst, mem: map<nat, int>)
    reads sp.sp
    requires d.period > 0 && sp.Valid()
  {
    forall l :: 0 <= l < |b.mask| && b.mask[l] ==>
      && 0 <= b.addr + l && b.addr + l in mem
      && 0 <= Destination(d, b.addr + l) && sp.Inside(Destination(d, b.addr + l))
      && sp.Word(Destination(d, b.addr + l)) == mem[b.addr + l]
  }

  /** Serve one burst. */
  method Deliver(d: Descriptor, ghost off: nat, bs: seq<Burst>, i: nat, store: Storage, sp: StorageArray,
                 ghost done: set<nat>, ghost mem: map<nat, int>)
    requires Exact(d, off, bs) && i < |bs|
    requires store.Valid() && Contains(store, mem) && sp.Valid() && Covered(d, sp, mem)
    requires forall j :: j in done ==> j < |bs| && Arrived(d, sp, bs[j], mem)
    modifies store, store.hashmap, store.elems, sp.sp
    ensures store.Valid() && Contains(store, mem)
    ensures fresh(store.elems - old(store.elems)) && fresh(store.Data() - old(store.Data()))
    ensures forall j :: j in done + {i} ==> Arrived(d, sp, bs[j], mem)
    ensures forall x: nat :: sp.Inside(x) && !Target(d, x) ==> sp.Word(x) == old(sp.Word(x))
  {
    hide Contains, ExactCover, PlacementExact, InRange, Requested, Destination, Ones, Landed;
    var b := bs[i];
    BurstIsAligned(d, off, bs, i);
    forall x: int | b.spOffset <= x < b.spOffset + Ones(b.mask)
      ensures 0 <= x && sp.Inside(x) && Target(d, x)
    {
      var l := RangeIsTargets(d, off, bs, i, x);
    }
    ghost var l0 := RangeIsTargets(d, off, bs, i, b.spOffset);
    LoadBurst(store, sp, Reserve(b.addr), b.mask, b.spOffset, b.addr, mem);
    LandedArrived(d, sp, b, mem);
    forall j | j in done
      ensures Arrived(d, sp, bs[j], mem)
    {
      assert old(Arrived(d, sp, bs[j], mem));
      BurstIsAligned(d, off, bs, j);
      forall l | 0 <= l < |bs[j].mask| && bs[j].mask[l]
        ensures sp.Word(Destination(d, bs[j].addr + l)) == mem[bs[j].addr + l]
      {
        var x := Destination(d, bs[j].addr + l);
        if b.spOffset <= x < b.spOffset + Ones(b.mask) {
          var k := RangeIsTargets(d, off, bs, i, x);
          OneSource(d, b.addr + k, bs[j].addr + l);
          assert old(sp.Word(x)) == mem[b.addr + k];
        }
      }
    }
  }

  lemma LandedArrived(d: Descriptor, sp: StorageArray, b: Burst, mem: map<nat, int>)
    requires d.period > 0 && sp.Valid() && |b.mask| == BURST && 0 <= b.addr && 0 <= b.spOffset
    requires forall l :: 0 <= l < BURST && b.mask[l] ==> b.addr + l in mem
    requires forall l :: 0 <= l < BURST && b.mask[l] ==>
               b.spOffset + Ones(b.mask[..l]) == Destination(d, b.addr + l) && sp.Inside(Destination(d, b.addr + l))
    requires Fit(sp, b.spOffset, Ones(b.mask)) && Landed(sp, b.addr, b.mask, b.spOffset, BURST, mem)
    ensures Arrived(d, sp, b, mem)
  {
    hide Ones, Destination, Fit;
  }

  /** Indices up to n. */
  function Indices(n: nat): (s: seq<nat>)
    ensures |s| == n && forall i: nat :: i < n ==> s[i] == i
    ensures forall i: nat :: i < n ==> i in s
  {
    if n == 0 then [] else Indices(n - 1) + [n - 1]
  }

  lemma RemoveAt(s: seq<nat>, k: nat)
    requires k < |s|
    ensures forall j :: j in s ==> j in s[..k] + s[k + 1..] || j == s[k]
  {
    forall j | j in s
      ensures j in s[..k] + s[k + 1..] || j == s[k]
    {
      var i :| 0 <= i < |s| && s[i] == j;
      assert i < k ==> s[..k][i] == j;
      assert i > k ==> s[k + 1..][i - k - 1] == j;
    }
  }

  /** Serve all bursts, in any order. */
  method DeliverAll(d: Descriptor, ghost off: nat, bs: seq<Burst>, pick: nat -> nat, store: Storage, sp: StorageArray,
                    ghost mem: map<nat, int>)
    requires Exact(d, off, bs)
    requires store.Valid() && Contains(store, mem) && sp.Valid() && Covered(d, sp, mem)
    modifies store, store.hashmap, store.elems, sp.sp
    ensures forall a: nat :: Requested(d, a) ==> sp.Word(Destination(d, a)) == mem[a]
    ensures forall x: nat :: sp.Inside(x) && !Target(d, x) ==> sp.Word(x) == old(sp.Word(x))
  {
    hide Contains, ExactCover, PlacementExact, InRange, Requested, Destination, Arrived;
    var left: seq<nat> := Indices(|bs|);
    ghost var done: set<nat> := {};
    while left != []
      invariant store.Valid() && Contains(store, mem)
      invariant fresh(store.elems - old(store.elems)) && fresh(store.Data() - old(store.Data()))
      invariant forall m :: 0 <= m < |left| ==> left[m] < |bs|
      invariant forall j: nat :: j < |bs| ==> j in left || j in done
      invariant forall j :: j in done ==> j < |bs| && Arrived(d, sp, bs[j], mem)
      invariant forall x: nat :: sp.Inside(x) && !Target(d, x) ==> sp.Word(x) == old(sp.Word(x))
      decreases |left|
    {
      var k := pick(|left|) % |left|;
      var i := left[k];
      Deliver(d, off, bs, i, store, sp, done, mem);
      RemoveAt(left, k);
      left := left[..k] + left[k + 1..];
      done := done + {i};
    }
    forall a: nat | Requested(d, a)
      ensures sp.Word(Destination(d, a)) == mem[a]
    {
      var i := HolderOf(d, off, bs, a);
      UseArrived(d, sp, bs[i], mem, a - bs[i].addr);
    }
  }

  lemma UseArrived(d: Descriptor, sp: StorageArray, b: Burst, mem: map<nat, int>, l: int)
    requires d.period > 0 && sp.Valid() && Arrived(d, sp, b, mem) && 0 <= l < |b.mask| && b.mask[l]
    ensures 0 <= b.addr + l && b.addr + l in mem
    ensures 0 <= Destination(d, b.addr + l) && sp.Inside(Destination(d, b.addr + l))
    ensures sp.Word(Destination(d, b.addr + l)) == mem[b.addr + l]
  {
  }

  lemma HolderOf(d: Descriptor, off: nat, bs: seq<Burst>, a: nat) returns (i: nat)
    requires Exact(d, off, bs) && Requested(d, a)
    ensures i < |bs| && bs[i].addr <= a < bs[i].addr + BURST && |bs[i].mask| == BURST && bs[i].mask[a - bs[i].addr]
  {
    i := SomeBurstHolds(d, BURST, off, bs, a);
  }

  // ----- End to end

  /** Requests the transfer is right for; all of it can be checked beforehand. */
  ghost predicate GoodTile(d: Descriptor) {
    d.period > 0 ==>
      && InRange(d, BURST) && d.target == Scratchpad && d.words <= d.period
      && CoverCondition(d, d.addr % BURST) && PlacementCondition(d, BURST, d.addr - d.addr % BURST)
  }

  /** The tile lies in the given part of memory and in the scratchpad. */
  ghost predicate InBounds(d: Descriptor, words: nat, spWords: nat) {
    d.period > 0 ==> forall a: nat :: Requested(d, a) ==> a < words && 0 <= Destination(d, a) < spWords
  }

  /** Each beat of the tile can read four words from that of its first one on. */
  ghost predicate Readable(d: Descriptor, spWords: nat) {
    d.period > 0 ==> forall a: nat :: StartsBeat(d, a) ==> Destination(d, a) + BEAT <= spWords
  }

  method Upload(contents: seq<int>) returns (store: Storage)
    requires |contents| <= ADDRESSES
    ensures store.Valid() && fresh(store) && fresh(store.hashmap) && fresh(store.elems) && fresh(store.Data())
    ensures forall a :: 0 <= a < |contents| ==> At(store, a) == Holds(contents[a])
  {
    hide At, BankOf, RowOf, ColOf, Offset;
    store := new Storage();
    for a := 0 to |contents|
      invariant store.Valid() && fresh(store) && fresh(store.hashmap) && fresh(store.elems) && fresh(store.Data())
      invariant forall x :: 0 <= x < a ==> At(store, x) == Holds(contents[x])
    {
      var n := a % BURST;
      WordOfBurst(a - n, n);
      SetAt(store, BankOf(a - n), RowOf(a - n), ColOf(a - n) + n / 2, n % 2, contents[a], a);
    }
  }

  method Fill(words: seq<int>, width: nat) returns (sp: StorageArray)
    requires width > 0 && width % BEAT == 0 && |words| % width == 0
    ensures sp.Valid() && fresh(sp) && fresh(sp.sp)
    ensures forall n: nat :: sp.Inside(n) <==> n < |words|
    ensures forall n: nat :: n < |words| ==> sp.Word(n) == words[n]
  {
    sp := new StorageArray(width, |words| / width);
    forall n: nat
      ensures sp.Inside(n) <==> n < |words|
    {
      InsideIsBelow(n, width, |words| / width);
    }
    hide *;
    for n := 0 to |words|
      invariant sp.Valid() && fresh(sp) && fresh(sp.sp)
      invariant forall n: nat :: sp.Inside(n) <==> n < |words|
      invariant forall x :: 0 <= x < n ==> sp.Word(x) == words[x]
    {
      sp.DebugWrite(n, words[n]);
    }
  }

  method Dump(sp: StorageArray, size: nat) returns (words: seq<int>)
    requires sp.Valid() && forall n: nat :: n < size ==> sp.Inside(n)
    ensures |words| == size && forall n: nat :: n < size ==> words[n] == sp.Word(n)
  {
    hide *;
    words := [];
    for n := 0 to size
      invariant |words| == n && forall x: nat :: x < n ==> words[x] == sp.Word(x)
    {
      var v := sp.DebugRead(n);
      words := words + [v];
    }
  }

  /** A tile from DRAM: every requested word arrives in its own scratchpad word, nothing else
      changes, in whatever order the bursts are served. */
  method Load(d: Descriptor, pick: nat -> nat, contents: seq<int>, words: seq<int>, width: nat)
    returns (r: Result<seq<int>>)
    requires GoodTile(d) && InBounds(d, |contents|, |words|) && |contents| <= ADDRESSES
    requires width > 0 && width % BEAT == 0 && |words| % width == 0
    ensures r.InvalidArgument? <==> !Accepted(d, BURST)
    ensures r.Ok? ==> d.period > 0 && |r.value| == |words|
    ensures r.Ok? ==> forall a: nat :: Requested(d, a) ==> r.value[Destination(d, a)] == contents[a]
    ensures r.Ok? ==> forall x: nat :: x < |words| && !Target(d, x) ==> r.value[x] == words[x]
  {
    hide At, Requested, Destination, ExactCover, PlacementExact, LineSafe, LinesExact, InRange;
    var off := d.addr % BURST;
    var run := Sequence(d, BURST, off);
    if run.InvalidArgument? {
      return InvalidArgument;
    }
    var store := Upload(contents);
    var sp := Fill(words, width);
    ghost var mem := map a: nat | a < |contents| :: contents[a];
    DeliverAll(d, off, run.value, pick, store, sp, mem);
    var now := Dump(sp, |words|);
    r := Ok(now);
  }

  /** What the scratchpad asserts about each write of a beat, for all beats of a burst: the end of
      the words written is strictly below its size. */
  ghost predicate BeatsBelow(b: Burst, size: nat) {
    |b.mask| == BURST && forall beat :: 0 <= beat < 4 && Ones(BeatMask(b.mask, beat)) > 0 ==>
      b.spOffset + Ones(b.mask[..BEAT * beat]) + Ones(BeatMask(b.mask, beat)) < size
  }

  /** The assertion is one word too strict: a tile that fits passes it exactly if it leaves the last
      word of the scratchpad alone. */
  lemma LastWordTripsAssertion(d: Descriptor, off: nat, bs: seq<Burst>, size: nat)
    requires Exact(d, off, bs) && size > 0 && forall x: nat :: Target(d, x) ==> x < size
    ensures (forall i :: 0 <= i < |bs| ==> BeatsBelow(bs[i], size)) <==> !Target(d, size - 1)
  {
    hide ExactCover, PlacementExact, InRange, EndAddr, Ones, Requested, Destination, BeatMask;
    if Target(d, size - 1) {
      var a: nat :| Requested(d, a) && Destination(d, a) == size - 1;
      var i := HolderOf(d, off, bs, a);
      BurstIsAligned(d, off, bs, i);
      var l := a - bs[i].addr;
      var beat := l / BEAT;
      BeatOnes(bs[i].mask, beat, l % BEAT);
      SetBitCounts(BeatMask(bs[i].mask, beat), l % BEAT);
      assert !BeatsBelow(bs[i], size);
    } else {
      forall i | 0 <= i < |bs|
        ensures BeatsBelow(bs[i], size)
      {
        AllBeatsBelow(d, off, bs, i, size);
      }
    }
  }

  lemma DestinationIsNat(d: Descriptor, a: int)
    requires d.period > 0 && d.count > 0 && Requested(d, a)
    ensures Destination(d, a) >= 0
  {
    RequestedIsPhase(d, a);
    PeriodSplit(d, a);
    MulMono(0, PeriodOf(d, a), d.dstPeriod);
  }

  lemma SetBitCounts(mask: seq<bool>, k: nat)
    requires k < |mask| && mask[k]
    ensures Ones(mask[..k]) < Ones(mask)
  {
    OnesNext(mask, k);
    OnesMonotone(mask, k + 1, |mask|);
    assert mask[..|mask|] == mask;
  }

  lemma AllBeatsBelow(d: Descriptor, off: nat, bs: seq<Burst>, i: nat, size: nat)
    requires Exact(d, off, bs) && i < |bs| && forall x: nat :: Target(d, x) ==> x < size
    requires size > 0 && !Target(d, size - 1)
    ensures BeatsBelow(bs[i], size)
  {
    hide ExactCover, PlacementExact, InRange, EndAddr, Ones, Requested, Destination, BeatMask;
    var b := bs[i];
    BurstIsAligned(d, off, bs, i);
    forall beat | 0 <= beat < 4 && Ones(BeatMask(b.mask, beat)) > 0
      ensures b.spOffset + Ones(b.mask[..BEAT * beat]) + Ones(BeatMask(b.mask, beat)) < size
    {
      BeatOnes(b.mask, beat, BEAT);
      var m := BeatMask(b.mask, beat);
      assert m[..BEAT] == m;
      var x := b.spOffset + Ones(b.mask[..BEAT * beat]) + Ones(m) - 1;
      var l := RangeIsTargets(d, off, bs, i, x);
      var l0 := RangeIsTargets(d, off, bs, i, b.spOffset);
      DestinationIsNat(d, b.addr + l0);
      assert Requested(d, b.addr + l) && Destination(d, b.addr + l) == x;
      assert Target(d, x);
    }
  }

  // ----- The other way

  /** Burst b is in memory. */
  ghost predicate Saved(d: Descriptor, store: Storage, sp: StorageArray, b: Burst)
    reads store, store.hashmap, store.elems, store.Data(), sp.sp
    requires store.Valid() && sp.Valid() && d.period > 0
  {
    forall l :: 0 <= l < |b.mask| && b.mask[l] ==>
      && 0 <= b.addr + l && 0 <= Destination(d, b.addr + l) && sp.Inside(Destination(d, b.addr + l))
      && At(store, b.addr + l) == Holds(sp.Word(Destination(d, b.addr + l)))
  }

  /** Requested word a is the first one of its DRAM beat. */
  ghost predicate StartsBeat(d: Descriptor, a: nat) {
    Requested(d, a) && forall x :: a - a % BEAT <= x < a ==> !Requested(d, x)
  }

  /** The tile is in the scratchpad, and so is what its beats read too much. */
  ghost predicate Roomy(d: Descriptor, sp: StorageArray)
    requires d.period > 0 && sp.Valid()
  {
    && (forall a: nat :: Requested(d, a) ==> 0 <= Destination(d, a) && sp.Inside(Destination(d, a)))
    && forall a: nat :: StartsBeat(d, a) ==> 0 <= Destination(d, a) && Fit(sp, Destination(d, a), BEAT)
  }

  /** A beat's words start in the scratchpad at the destination of the first of them. */
  lemma RoomyFits(d: Descriptor, off: nat, bs: seq<Burst>, i: nat, sp: StorageArray)
    requires Exact(d, off, bs) && i < |bs| && sp.Valid() && Roomy(d, sp)
    ensures |bs[i].mask| == BURST && 0 <= bs[i].spOffset && BeatsFit(sp, bs[i].mask, bs[i].spOffset)
  {
    assert d.period > 0;
    hide Roomy, Fit, BeatMask, Exact, Ones;
    StartsInside(d, off, bs, i, sp);
    forall beat | 0 <= beat < 4 && Ones(BeatMask(bs[i].mask, beat)) > 0
      ensures Fit(sp, bs[i].spOffset + Ones(bs[i].mask[..BEAT * beat]), BEAT)
    {
      RoomyBeat(d, off, bs, i, sp, beat);
    }
  }

  lemma StartsInside(d: Descriptor, off: nat, bs: seq<Burst>, i: nat, sp: StorageArray)
    requires Exact(d, off, bs) && i < |bs| && sp.Valid() && d.period > 0 && Roomy(d, sp)
    ensures |bs[i].mask| == BURST && 0 <= bs[i].spOffset
  {
    hide Requested, Destination, Ones, Roomy, Fit, Exact;
    BurstIsAligned(d, off, bs, i);
    var l0 := RangeIsTargets(d, off, bs, i, bs[i].spOffset);
    RoomyAt(d, sp, bs[i].addr + l0);
  }

  lemma LaneIsTarget(d: Descriptor, off: nat, bs: seq<Burst>, i: nat, l: nat)
    requires Exact(d, off, bs) && i < |bs| && l < BURST && |bs[i].mask| == BURST && bs[i].mask[l]
    ensures 0 <= bs[i].addr && bs[i].addr % BEAT == 0 && Requested(d, bs[i].addr + l)
    ensures bs[i].spOffset + Ones(bs[i].mask[..l]) == Destination(d, bs[i].addr + l)
  {
    hide Exact, Requested, Destination, Ones;
    BurstIsAligned(d, off, bs, i);
  }

  lemma RoomyBeat(d: Descriptor, off: nat, bs: seq<Burst>, i: nat, sp: StorageArray, beat: nat)
    requires Exact(d, off, bs) && i < |bs| && sp.Valid() && Roomy(d, sp) && beat < 4
    requires |bs[i].mask| == BURST && 0 <= bs[i].spOffset
    requires Ones(BeatMask(bs[i].mask, beat)) > 0
    ensures Fit(sp, bs[i].spOffset + Ones(bs[i].mask[..BEAT * beat]), BEAT)
  {
    hide ExactCover, PlacementExact, InRange, Requested, Destination, Ones, Roomy, Fit, EndAddr, StartsBeat;
    var b := bs[i];
    var k := NthOne(BeatMask(b.mask, beat), 0);
    BeatOnes(b.mask, beat, k);
    LaneIsTarget(d, off, bs, i, BEAT * beat + k);
    var start := b.addr + BEAT * beat;
    var a := start + k;
    MaskIsRequested(d, off, bs, i, BEAT * beat + k);
    forall x | start <= x < a
      ensures !Requested(d, x)
    {
      NoneBefore(BeatMask(b.mask, beat), k, x - start);
      BeatOnes(b.mask, beat, x - start);
      MaskIsRequested(d, off, bs, i, x - b.addr);
    }
    FirstOfBeat(d, a, start, k);
    RoomyAt(d, sp, a);
  }

  lemma FirstOfBeat(d: Descriptor, a: nat, start: nat, k: nat)
    requires d.period > 0 && a == start + k && k < BEAT && start % BEAT == 0
    requires Requested(d, a) && forall x :: start <= x < a ==> !Requested(d, x)
    ensures StartsBeat(d, a)
  {
    hide Requested;
    DivModUnique(a, BEAT, start / BEAT, k);
  }

  lemma MaskIsRequested(d: Descriptor, off: nat, bs: seq<Burst>, i: nat, l: nat)
    requires Exact(d, off, bs) && i < |bs| && l < BURST && |bs[i].mask| == BURST
    ensures bs[i].mask[l] == Requested(d, bs[i].addr + l)
  {
    hide Requested, ExactCover;
    ExactMaskOf(d, off, bs, i);
  }

  lemma RoomyAt(d: Descriptor, sp: StorageArray, a: nat)
    requires d.period > 0 && sp.Valid() && Roomy(d, sp) && Requested(d, a)
    ensures 0 <= Destination(d, a) && sp.Inside(Destination(d, a))
    ensures StartsBeat(d, a) ==> Fit(sp, Destination(d, a), BEAT)
  {
  }

  lemma NoneBefore(mask: seq<bool>, k: nat, j: nat)
    requires j < k <= |mask| && Ones(mask[..k]) == 0
    ensures !mask[j]
  {
    OnesNext(mask, j);
    OnesMonotone(mask, j + 1, k);
  }

  method Collect(d: Descriptor, ghost off: nat, bs: seq<Burst>, i: nat, store: Storage, sp: StorageArray,
                 ghost done: set<nat>)
    requires Exact(d, off, bs) && i < |bs| && store.Valid() && sp.Valid() && Roomy(d, sp)
    requires forall j :: j in done ==> j < |bs| && Saved(d, store, sp, bs[j])
    modifies store, store.hashmap, store.elems, store.Data()
    ensures store.Valid()
    ensures fresh(store.elems - old(store.elems)) && fresh(store.Data() - old(store.Data()))
    ensures forall j :: j in done + {i} ==> Saved(d, store, sp, bs[j])
    ensures forall x: nat :: x < ADDRESSES && !Requested(d, x) ==>
              old(At(store, x)) == Absent || At(store, x) == old(At(store, x))
  {
    hide ExactCover, PlacementExact, InRange, Requested, Destination, Ones, At;
    var b := bs[i];
    BurstIsAligned(d, off, bs, i);
    RoomyFits(d, off, bs, i, sp);
    StoreBurst(store, sp, Reserve(b.addr), b.mask, b.spOffset, b.addr);
    assert Saved(d, store, sp, b);
    forall j | j in done && j != i
      ensures Saved(d, store, sp, bs[j])
    {
      BurstIsAligned(d, off, bs, j);
      Apart(d, off, bs, i, j);
      assert old(Saved(d, store, sp, bs[j]));
    }
  }

  /** Two bursts share no word. */
  lemma Apart(d: Descriptor, off: nat, bs: seq<Burst>, i: nat, j: nat)
    requires Exact(d, off, bs) && i < |bs| && j < |bs| && i != j
    ensures bs[i].addr + BURST <= bs[j].addr || bs[j].addr + BURST <= bs[i].addr
  {
    hide ExactCover, PlacementExact;
    if i < j {
      BurstsApart(d, BURST, off, bs, i, j);
    } else {
      BurstsApart(d, BURST, off, bs, j, i);
    }
  }

  method CollectAll(d: Descriptor, ghost off: nat, bs: seq<Burst>, pick: nat -> nat, store: Storage, sp: StorageArray)
    requires Exact(d, off, bs) && store.Valid() && sp.Valid() && Roomy(d, sp)
    modifies store, store.hashmap, store.elems, store.Data()
    ensures store.Valid()
    ensures fresh(store.elems - old(store.elems)) && fresh(store.Data() - old(store.Data()))
    ensures forall a: nat :: Requested(d, a) ==>
              sp.Inside(Destination(d, a)) && At(store, a) == Holds(sp.Word(Destination(d, a)))
    ensures forall x: nat :: x < ADDRESSES && !Requested(d, x) ==>
              old(At(store, x)) == Absent || At(store, x) == old(At(store, x))
  {
    hide ExactCover, PlacementExact, InRange, Requested, Destination, Saved, At;
    var left: seq<nat> := Indices(|bs|);
    ghost var done: set<nat> := {};
    while left != []
      invariant store.Valid()
      invariant fresh(store.elems - old(store.elems)) && fresh(store.Data() - old(store.Data()))
      invariant forall m :: 0 <= m < |left| ==> left[m] < |bs|
      invariant forall j: nat :: j < |bs| ==> j in left || j in done
      invariant forall j :: j in done ==> j < |bs| && Saved(d, store, sp, bs[j])
      invariant forall x: nat :: x < ADDRESSES && !Requested(d, x) ==>
                  old(At(store, x)) == Absent || At(store, x) == old(At(store, x))
      decreases |left|
    {
      var k := pick(|left|) % |left|;
      var i := left[k];
      Collect(d, off, bs, i, store, sp, done);
      RemoveAt(left, k);
      left := left[..k] + left[k + 1..];
      done := done + {i};
    }
    forall a: nat | Requested(d, a)
      ensures sp.Inside(Destination(d, a)) && At(store, a) == Holds(sp.Word(Destination(d, a)))
    {
      var i := HolderOf(d, off, bs, a);
      UseSaved(d, store, sp, bs[i], a - bs[i].addr);
    }
  }

  lemma UseSaved(d: Descriptor, store: Storage, sp: StorageArray, b: Burst, l: int)
    requires store.Valid() && sp.Valid() && d.period > 0 && Saved(d, store, sp, b) && 0 <= l < |b.mask| && b.mask[l]
    ensures 0 <= b.addr + l && 0 <= Destination(d, b.addr + l) && sp.Inside(Destination(d, b.addr + l))
    ensures At(store, b.addr + l) == Holds(sp.Word(Destination(d, b.addr + l)))
  {
  }

  method Download(store: Storage, size: nat, ghost mem: seq<int>) returns (contents: seq<int>)
    requires store.Valid() && |mem| == size <= ADDRESSES
    requires forall a :: 0 <= a < size ==> At(store, a) == Holds(mem[a])
    modifies store, store.hashmap, store.elems
    ensures contents == mem
  {
    hide At, BankOf, RowOf, ColOf, Offset;
    contents := [];
    for a := 0 to size
      invariant store.Valid() && |contents| == a && contents == mem[..a]
      invariant fresh(store.elems - old(store.elems)) && fresh(store.Data() - old(store.Data()))
      invariant forall x :: 0 <= x < size ==> At(store, x) == Holds(mem[x])
    {
      var n := a % BURST;
      WordOfBurst(a - n, n);
      var v := GetAt(store, BankOf(a - n), RowOf(a - n), ColOf(a - n) + n / 2, n % 2, a);
      contents := contents + [v];
    }
  }

  /** Memory after a store of the tile. */
  ghost function Overwritten(d: Descriptor, contents: seq<int>, words: seq<int>): (now: seq<int>)
    requires d.period > 0 && InBounds(d, |contents|, |words|)
  {
    seq(|contents|, a requires 0 <= a < |contents| =>
      if Requested(d, a) then words[Destination(d, a)] else contents[a])
  }

  /** A tile to DRAM, whose beats can be read from the scratchpad: every requested word gets the
      value of its scratchpad word, nothing else changes. */
  method Save(d: Descriptor, pick: nat -> nat, contents: seq<int>, words: seq<int>, width: nat)
    returns (r: Result<seq<int>>)
    requires GoodTile(d) && InBounds(d, |contents|, |words|) && Readable(d, |words|) && |contents| <= ADDRESSES
    requires width > 0 && width % BEAT == 0 && |words| % width == 0
    ensures r.InvalidArgument? <==> !Accepted(d, BURST)
    ensures r.Ok? ==> d.period > 0 && r.value == Overwritten(d, contents, words)
  {
    hide At, Requested, Destination, ExactCover, PlacementExact, LineSafe, LinesExact, InRange;
    var off := d.addr % BURST;
    var run := Sequence(d, BURST, off);
    if run.InvalidArgument? {
      return InvalidArgument;
    }
    var store := Upload(contents);
    var sp := Fill(words, width);
    CollectAll(d, off, run.value, pick, store, sp);
    ghost var mem := Overwritten(d, contents, words);
    forall a: nat | a < |contents|
      ensures At(store, a) == Holds(mem[a])
    {
      assert Requested(d, a) ==> At(store, a) == Holds(words[Destination(d, a)]);
    }
    var now := Download(store, |contents|, mem);
    r := Ok(now);
  }

  /** What is stored and loaded again, to wherever the scratchpad was cleared, is the same tile. */
  method RoundTrip(d: Descriptor, pick: nat -> nat, contents: seq<int>, words: seq<int>, cleared: seq<int>, width: nat)
    returns (r: Result<seq<int>>)
    requires GoodTile(d) && InBounds(d, |contents|, |words|) && Readable(d, |words|) && |contents| <= ADDRESSES
    requires width > 0 && width % BEAT == 0 && |words| % width == 0 && |cleared| == |words|
    ensures r.InvalidArgument? <==> !Accepted(d, BURST)
    ensures r.Ok? ==> d.period > 0 && |r.value| == |words| && forall x: nat :: x < |words| ==>
              r.value[x] == if Target(d, x) then words[x] else cleared[x]
  {
    hide Requested, Destination, GoodTile;
    var saved := Save(d, pick, contents, words, width);
    if saved.InvalidArgument? {
      return InvalidArgument;
    }
    r := Load(d, pick, saved.value, cleared, width);
  }
}
