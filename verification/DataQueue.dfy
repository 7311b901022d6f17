/** The data bus between DRAM and scratchpad: four beats a burst, four rotated lanes a beat. */
module DataQueues {
  import opened Arith
  import opened DramBanks
  import opened StorageElements
  import opened StorageBackEnd
  import opened FlatMemory
  import opened ScratchpadMemory
  import opened StrideSequencing

  const BURST: nat := 16

  lemma {:induction false} OnesAppend(a: seq<bool>, b: seq<bool>)
    ensures Ones(a + b) == Ones(a) + Ones(b)
  {
    if b == [] {
      assert a + b == a;
    } else {
      assert (a + b)[..|a + b| - 1] == a + b[..|b| - 1];
      OnesAppend(a, b[..|b| - 1]);
    }
  }

  lemma OnesNext(mask: seq<bool>, i: nat)
    requires i < |mask|
    ensures Ones(mask[..i + 1]) == Ones(mask[..i]) + (if mask[i] then 1 else 0)
  {
    assert mask[..i + 1][..i] == mask[..i];
  }

  lemma {:induction false} OnesBound(mask: seq<bool>)
    ensures Ones(mask) <= |mask|
  {
    if mask != [] {
      OnesBound(mask[..|mask| - 1]);
    }
  }

  lemma {:induction false} OnesMonotone(mask: seq<bool>, i: nat, j: nat)
    requires i <= j <= |mask|
    ensures Ones(mask[..i]) <= Ones(mask[..j])
  {
    if i < j {
      OnesMonotone(mask, i, j - 1);
      OnesNext(mask, j - 1);
    }
  }

  /** DRAM words with known contents. */
  ghost predicate Contains(store: Storage, mem: map<nat, int>)
    reads store, store.hashmap, store.elems, store.Data()
    requires store.Valid()
  {
    forall a :: a in mem ==> a < ADDRESSES && At(store, a) == Holds(mem[a])
  }

  /** Where a burst is in DRAM, as carried by a column access. */
  datatype Reservation = Reservation(bank: nat, row: nat, col: nat)

  predicate Reserves(res: Reservation, burst: nat) {
    burst % BURST == 0 && burst < ADDRESSES && res == Reservation(BankOf(burst), RowOf(burst), ColOf(burst))
  }

  /** Word i of a beat. */
  method Fetch(store: Storage, res: Reservation, beat: nat, i: nat, ghost burst: nat, ghost mem: map<nat, int>)
    returns (v: int)
    requires store.Valid() && Contains(store, mem) && beat < 4 && i < BEAT
    requires Reserves(res, burst) && burst + BEAT * beat + i in mem
    modifies store, store.hashmap, store.elems
    ensures store.Valid() && Contains(store, mem) && v == mem[burst + BEAT * beat + i]
    ensures fresh(store.elems - old(store.elems)) && fresh(store.Data() - old(store.Data()))
  {
    hide At, BankOf, RowOf, ColOf, Offset;
    WordOfBurst(burst, BEAT * beat + i);
    v := GetAt(store, res.bank, res.row, res.col + (2 * beat + i / 2), i % 2, burst + BEAT * beat + i);
  }

  method Put(store: Storage, res: Reservation, beat: nat, i: nat, v: int, ghost burst: nat)
    requires store.Valid() && beat < 4 && i < BEAT && Reserves(res, burst)
    modifies store, store.hashmap, store.elems, store.Data()
    ensures store.Valid() && At(store, burst + BEAT * beat + i) == Holds(v)
    ensures forall x :: 0 <= x < ADDRESSES && x != burst + BEAT * beat + i ==>
              old(At(store, x)) == Absent || At(store, x) == old(At(store, x))
    ensures fresh(store.elems - old(store.elems)) && fresh(store.Data() - old(store.Data()))
  {
    hide At, BankOf, RowOf, ColOf, Offset;
    WordOfBurst(burst, BEAT * beat + i);
    SetAt(store, res.bank, res.row, res.col + (2 * beat + i / 2), i % 2, v, burst + BEAT * beat + i);
  }

  /** Lane of the k-th word from n on. */
  function Lane(n: nat, k: nat): (j: nat)
    ensures j < BEAT
  {
    (n + k) % BEAT
  }

  lemma LaneFacts(n: nat, k: nat)
    requires k < BEAT
    ensures Lane(n, k + 1) == (Lane(n, k) + 1) % BEAT && Lane(n, 0) == n % BEAT
    ensures forall k' :: 0 <= k' < k ==> Lane(n, k') != Lane(n, k)
    ensures forall x :: n <= x < n + BEAT ==> (x % BEAT == Lane(n, k) <==> x == n + k)
  {
  }

  /** Read the selected words of a beat into lanes, rotated to start at the lane of n. */
  method DoRead(store: Storage, res: Reservation, beat: nat, mask: seq<bool>, n: nat, ghost burst: nat,
                ghost mem: map<nat, int>)
    returns (data: seq<int>, lanes: seq<bool>)
    requires store.Valid() && Contains(store, mem) && |mask| == BEAT && beat < 4 && Reserves(res, burst)
    requires forall i :: 0 <= i < BEAT && mask[i] ==> burst + BEAT * beat + i in mem
    modifies store, store.hashmap, store.elems
    ensures store.Valid() && Contains(store, mem)
    ensures fresh(store.elems - old(store.elems)) && fresh(store.Data() - old(store.Data()))
    ensures |data| == |lanes| == BEAT
    ensures forall i :: 0 <= i < BEAT && mask[i] ==> data[Lane(n, Ones(mask[..i]))] == mem[burst + BEAT * beat + i]
    ensures forall x :: n <= x < n + BEAT ==> (lanes[x % BEAT] <==> x < n + Ones(mask))
  {
    hide Contains, Ones, Lane;
    LaneFacts(n, 0);
    data, lanes := [0, 0, 0, 0], [false, false, false, false];
    var j := n % BEAT;
    NoOnes(mask);
    for i := 0 to BEAT
      invariant store.Valid() && Contains(store, mem)
      invariant fresh(store.elems - old(store.elems)) && fresh(store.Data() - old(store.Data()))
      invariant |data| == |lanes| == BEAT && Ones(mask[..i]) <= i && j == Lane(n, Ones(mask[..i]))
      invariant forall k :: 0 <= k < i && mask[k] ==>
                  Ones(mask[..k]) < Ones(mask[..i]) && data[Lane(n, Ones(mask[..k]))] == mem[burst + BEAT * beat + k]
      invariant forall x :: n <= x < n + BEAT ==> (lanes[x % BEAT] <==> x < n + Ones(mask[..i]))
    {
      OnesNext(mask, i);
      if mask[i] {
        LaneFacts(n, Ones(mask[..i]));
        var v := Fetch(store, res, beat, i, burst, mem);
        data, lanes := data[j := v], lanes[j := true];
        j := (j + 1) % BEAT;
      }
    }
    assert mask[..BEAT] == mask;
  }

  lemma NoOnes(mask: seq<bool>)
    ensures Ones(mask[..0]) == 0
  {
  }

  /** n and the words after it are inside the scratchpad. */
  ghost predicate Fit(sp: StorageArray, n: nat, words: nat)
    requires sp.Valid()
  {
    forall x: nat :: n <= x < n + words ==> sp.Inside(x)
  }

  /** One beat from DRAM: the selected words go to consecutive scratchpad words from n on. */
  method LoadBeat(store: Storage, sp: StorageArray, res: Reservation, beat: nat, mask: seq<bool>, n: nat,
                  ghost burst: nat, ghost mem: map<nat, int>)
    requires store.Valid() && Contains(store, mem) && sp.Valid() && |mask| == BEAT && beat < 4 && Reserves(res, burst)
    requires forall i :: 0 <= i < BEAT && mask[i] ==> burst + BEAT * beat + i in mem
    requires Fit(sp, n, Ones(mask))
    modifies store, store.hashmap, store.elems, sp.sp
    ensures store.Valid() && Contains(store, mem)
    ensures fresh(store.elems - old(store.elems)) && fresh(store.Data() - old(store.Data()))
    ensures forall i :: 0 <= i < BEAT && mask[i] ==>
              n + Ones(mask[..i]) < n + Ones(mask) && sp.Word(n + Ones(mask[..i])) == mem[burst + BEAT * beat + i]
    ensures forall x: nat :: sp.Inside(x) && !(n <= x < n + Ones(mask)) ==> sp.Word(x) == old(sp.Word(x))
  {
    hide Contains, Ones;
    OnesBound(mask);
    forall i | 0 <= i < BEAT && mask[i]
      ensures Ones(mask[..i]) < Ones(mask)
    {
      OnesNext(mask, i);
      OnesMonotone(mask, i + 1, BEAT);
      assert mask[..BEAT] == mask;
    }
    if Ones(mask) > 0 {
      var data, lanes := DoRead(store, res, beat, mask, n, burst, mem);
      forall i | 0 <= i < BEAT && lanes[i]
        ensures sp.Inside(WordAt(n, i, BEAT))
      {
        assert lanes[WordAt(n, i, BEAT) % BEAT];
      }
      sp.DramWrite(n, data, lanes);
    }
  }

  /** The bits of a beat. */
  function BeatMask(mask: seq<bool>, beat: nat): (m: seq<bool>)
    requires |mask| == BURST && beat < 4
    ensures |m| == BEAT
  {
    mask[BEAT * beat..BEAT * beat + BEAT]
  }

  lemma BeatOnes(mask: seq<bool>, beat: nat, i: nat)
    requires |mask| == BURST && beat < 4 && i <= BEAT
    ensures Ones(mask[..BEAT * beat + i]) == Ones(mask[..BEAT * beat]) + Ones(BeatMask(mask, beat)[..i])
    ensures Ones(mask[..BEAT * beat + i]) <= Ones(mask)
    ensures i < BEAT ==> BeatMask(mask, beat)[i] == mask[BEAT * beat + i]
  {
    var p := BEAT * beat;
    OnesAppend(mask[..p], BeatMask(mask, beat)[..i]);
    assert BeatMask(mask, beat)[..i] == mask[p..p + i];
    assert mask[..p + i] == mask[..p] + mask[p..p + i];
    OnesMonotone(mask, BEAT * beat + i, BURST);
    assert mask[..BURST] == mask;
  }

  /** The first k words of a burst are where they belong. */
  ghost predicate Landed(sp: StorageArray, burst: nat, mask: seq<bool>, offset: nat, k: nat, mem: map<nat, int>)
    reads sp.sp
    requires sp.Valid() && k <= |mask| && Fit(sp, offset, Ones(mask))
    requires forall l :: 0 <= l < |mask| && mask[l] ==> burst + l in mem
  {
    forall l :: 0 <= l < k && mask[l] ==>
      && Ones(mask[..l]) < Ones(mask[..k]) <= Ones(mask)
      && sp.Word(offset + Ones(mask[..l])) == mem[burst + l]
  }

  /** A whole burst from DRAM to scratchpad. */
  method LoadBurst(store: Storage, sp: StorageArray, res: Reservation, mask: seq<bool>, offset: nat, ghost burst: nat,
                   ghost mem: map<nat, int>)
    requires store.Valid() && Contains(store, mem) && sp.Valid() && |mask| == BURST && Reserves(res, burst)
    requires forall l :: 0 <= l < BURST && mask[l] ==> burst + l in mem
    requires Fit(sp, offset, Ones(mask))
    modifies store, store.hashmap, store.elems, sp.sp
    ensures store.Valid() && Contains(store, mem)
    ensures fresh(store.elems - old(store.elems)) && fresh(store.Data() - old(store.Data()))
    ensures Landed(sp, burst, mask, offset, BURST, mem)
    ensures forall x: nat :: sp.Inside(x) && !(offset <= x < offset + Ones(mask)) ==> sp.Word(x) == old(sp.Word(x))
  {
    hide Contains, Ones, Landed, BeatMask;
    var n := offset;
    NoOnes(mask);
    NothingLanded(sp, burst, mask, offset, mem);
    for beat := 0 to 4
      invariant store.Valid() && Contains(store, mem)
      invariant fresh(store.elems - old(store.elems)) && fresh(store.Data() - old(store.Data()))
      invariant n == offset + Ones(mask[..BEAT * beat]) && n <= offset + Ones(mask)
      invariant Landed(sp, burst, mask, offset, BEAT * beat, mem)
      invariant forall x: nat :: sp.Inside(x) && !(offset <= x < n) ==> sp.Word(x) == old(sp.Word(x))
    {
      var words := LoadPart(store, sp, res, mask, offset, beat, n, burst, mem);
      n := n + words;
    }
    assert mask[..BURST] == mask;
  }

  lemma NothingLanded(sp: StorageArray, burst: nat, mask: seq<bool>, offset: nat, mem: map<nat, int>)
    requires sp.Valid() && Fit(sp, offset, Ones(mask))
    requires forall l :: 0 <= l < |mask| && mask[l] ==> burst + l in mem
    ensures Landed(sp, burst, mask, offset, 0, mem)
  {
  }

  method LoadPart(store: Storage, sp: StorageArray, res: Reservation, mask: seq<bool>, ghost offset: nat, beat: nat,
                  n: nat, ghost burst: nat, ghost mem: map<nat, int>)
    returns (words: nat)
    requires store.Valid() && Contains(store, mem) && sp.Valid() && |mask| == BURST && beat < 4 && Reserves(res, burst)
    requires forall l :: 0 <= l < BURST && mask[l] ==> burst + l in mem
    requires Fit(sp, offset, Ones(mask)) && n == offset + Ones(mask[..BEAT * beat])
    requires Landed(sp, burst, mask, offset, BEAT * beat, mem)
    modifies store, store.hashmap, store.elems, sp.sp
    ensures store.Valid() && Contains(store, mem)
    ensures fresh(store.elems - old(store.elems)) && fresh(store.Data() - old(store.Data()))
    ensures Landed(sp, burst, mask, offset, BEAT * beat + BEAT, mem)
    ensures n + words == offset + Ones(mask[..BEAT * beat + BEAT]) <= offset + Ones(mask)
    ensures forall x: nat :: sp.Inside(x) && !(n <= x < n + words) ==> sp.Word(x) == old(sp.Word(x))
  {
    hide Contains, Ones, BeatMask;
    var m := BeatMask(mask, beat);
    BeatOnes(mask, beat, BEAT);
    assert m[..BEAT] == m;
    forall i | 0 <= i < BEAT
      ensures Ones(mask[..BEAT * beat + i]) == Ones(mask[..BEAT * beat]) + Ones(m[..i])
      ensures m[i] == mask[BEAT * beat + i]
    {
      BeatOnes(mask, beat, i);
    }
    words := Ones(m);
    LoadBeat(store, sp, res, beat, m, n, burst, mem);
    forall l | 0 <= l < BEAT * beat + BEAT && mask[l]
      ensures Ones(mask[..l]) < Ones(mask[..BEAT * beat + BEAT]) <= Ones(mask)
      ensures sp.Word(offset + Ones(mask[..l])) == mem[burst + l]
    {
      if l >= BEAT * beat {
        var i := l - BEAT * beat;
        assert BEAT * beat + i == l && m[i];
      }
    }
  }

  // ----- From scratchpad to DRAM

  /** One of the first k bits is set at i. */
  predicate Chosen(mask: seq<bool>, i: int, k: nat)
    requires k <= |mask|
  {
    0 <= i < k && mask[i]
  }

  /** Write the selected words of a beat, taken from the lanes from that of n on. */
  method DoWriteStorage(store: Storage, res: Reservation, beat: nat, mask: seq<bool>, n: nat, data: seq<int>,
                        ghost burst: nat)
    requires store.Valid() && |mask| == |data| == BEAT && beat < 4 && Reserves(res, burst)
    modifies store, store.hashmap, store.elems, store.Data()
    ensures store.Valid()
    ensures fresh(store.elems - old(store.elems)) && fresh(store.Data() - old(store.Data()))
    ensures forall i :: 0 <= i < BEAT && mask[i] ==>
              At(store, burst + BEAT * beat + i) == Holds(data[Lane(n, Ones(mask[..i]))])
    ensures forall x :: 0 <= x < ADDRESSES && !Chosen(mask, x - (burst + BEAT * beat), BEAT) ==>
              old(At(store, x)) == Absent || At(store, x) == old(At(store, x))
  {
    hide Ones, At, Lane, BankOf, RowOf, ColOf;
    LaneFacts(n, 0);
    var j := n % BEAT;
    NoOnes(mask);
    for i := 0 to BEAT
      invariant store.Valid() && j == Lane(n, Ones(mask[..i]))
      invariant fresh(store.elems - old(store.elems)) && fresh(store.Data() - old(store.Data()))
      invariant forall k :: 0 <= k < i && mask[k] ==>
                  At(store, burst + BEAT * beat + k) == Holds(data[Lane(n, Ones(mask[..k]))])
      invariant forall x :: 0 <= x < ADDRESSES && !Chosen(mask, x - (burst + BEAT * beat), i) ==>
                  old(At(store, x)) == Absent || At(store, x) == old(At(store, x))
    {
      OnesNext(mask, i);
      if mask[i] {
        OnesBound(mask[..i]);
        LaneFacts(n, Ones(mask[..i]));
        Put(store, res, beat, i, data[j], burst);
        j := (j + 1) % BEAT;
      }
    }
  }

  /** One beat to DRAM. If it has a selected word, four words are read from the scratchpad. */
  method StoreBeat(store: Storage, sp: StorageArray, res: Reservation, beat: nat, mask: seq<bool>, n: nat,
                   ghost burst: nat)
    requires store.Valid() && sp.Valid() && |mask| == BEAT && beat < 4 && Reserves(res, burst)
    requires Ones(mask) > 0 ==> Fit(sp, n, BEAT)
    modifies store, store.hashmap, store.elems, store.Data()
    ensures store.Valid()
    ensures fresh(store.elems - old(store.elems)) && fresh(store.Data() - old(store.Data()))
    ensures forall i :: 0 <= i < BEAT && mask[i] ==>
              && sp.Inside(n + Ones(mask[..i]))
              && At(store, burst + BEAT * beat + i) == Holds(sp.Word(n + Ones(mask[..i])))
    ensures forall x :: 0 <= x < ADDRESSES && !Chosen(mask, x - (burst + BEAT * beat), BEAT) ==>
              old(At(store, x)) == Absent || At(store, x) == old(At(store, x))
  {
    hide Ones, At, WordAt, Contains;
    forall i | 0 <= i < BEAT && mask[i]
      ensures Ones(mask) > 0
    {
      OnesNext(mask, i);
      OnesMonotone(mask, i + 1, BEAT);
      assert mask[..BEAT] == mask;
    }
    if Ones(mask) > 0 {
      var data := sp.DramRead(n);
      DoWriteStorage(store, res, beat, mask, n, data, burst);
      forall i | 0 <= i < BEAT && mask[i]
        ensures Ones(mask[..i]) < BEAT && data[Lane(n, Ones(mask[..i]))] == sp.Word(n + Ones(mask[..i]))
      {
        OnesBound(mask[..i]);
        WordAtIs(n, Ones(mask[..i]), BEAT);
      }
    }
  }

  /** The four words that each beat with a selected word reads are in the scratchpad. */
  ghost predicate BeatsFit(sp: StorageArray, mask: seq<bool>, offset: nat)
    requires sp.Valid() && |mask| == BURST
  {
    forall beat :: 0 <= beat < 4 && Ones(BeatMask(mask, beat)) > 0 ==>
      Fit(sp, offset + Ones(mask[..BEAT * beat]), BEAT)
  }

  /** The first k words of a burst are in memory. */
  ghost predicate Stored(store: Storage, sp: StorageArray, burst: nat, mask: seq<bool>, offset: nat, k: nat)
    reads store, store.hashmap, store.elems, store.Data(), sp.sp
    requires store.Valid() && sp.Valid() && k <= |mask|
  {
    forall l :: 0 <= l < k && mask[l] ==>
      sp.Inside(offset + Ones(mask[..l])) && At(store, burst + l) == Holds(sp.Word(offset + Ones(mask[..l])))
  }

  /** A whole burst from scratchpad to DRAM. */
  method StoreBurst(store: Storage, sp: StorageArray, res: Reservation, mask: seq<bool>, offset: nat, ghost burst: nat)
    requires store.Valid() && sp.Valid() && |mask| == BURST && Reserves(res, burst)
    requires BeatsFit(sp, mask, offset)
    modifies store, store.hashmap, store.elems, store.Data()
    ensures store.Valid()
    ensures fresh(store.elems - old(store.elems)) && fresh(store.Data() - old(store.Data()))
    ensures Stored(store, sp, burst, mask, offset, BURST)
    ensures forall x :: 0 <= x < ADDRESSES && !Chosen(mask, x - burst, BURST) ==>
              old(At(store, x)) == Absent || At(store, x) == old(At(store, x))
  {
    hide Ones, At, BeatMask, BeatsFit;
    var n := offset;
    NoOnes(mask);
    for beat := 0 to 4
      invariant store.Valid() && n == offset + Ones(mask[..BEAT * beat])
      invariant fresh(store.elems - old(store.elems)) && fresh(store.Data() - old(store.Data()))
      invariant Stored(store, sp, burst, mask, offset, BEAT * beat)
      invariant forall x :: 0 <= x < ADDRESSES && !Chosen(mask, x - burst, BEAT * beat) ==>
                  old(At(store, x)) == Absent || At(store, x) == old(At(store, x))
    {
      var words := StorePart(store, sp, res, mask, offset, beat, n, burst);
      n := n + words;
    }
  }

  /** The part of a burst in one beat. */
  lemma BeatIs(sp: StorageArray, mask: seq<bool>, offset: nat, beat: nat)
    requires sp.Valid() && |mask| == BURST && beat < 4 && BeatsFit(sp, mask, offset)
    ensures var m := BeatMask(mask, beat);
            && Ones(mask[..BEAT * beat + BEAT]) == Ones(mask[..BEAT * beat]) + Ones(m)
            && (Ones(m) > 0 ==> Fit(sp, offset + Ones(mask[..BEAT * beat]), BEAT))
            && forall i :: 0 <= i < BEAT ==>
                 m[i] == mask[BEAT * beat + i]
                      && Ones(mask[..BEAT * beat + i]) == Ones(mask[..BEAT * beat]) + Ones(m[..i])
  {
    hide Ones, BeatMask, Fit;
    var m := BeatMask(mask, beat);
    BeatOnes(mask, beat, BEAT);
    assert m[..BEAT] == m;
    forall i | 0 <= i < BEAT
      ensures m[i] == mask[BEAT * beat + i] && Ones(mask[..BEAT * beat + i]) == Ones(mask[..BEAT * beat]) + Ones(m[..i])
    {
      BeatOnes(mask, beat, i);
    }
  }

  lemma ChosenInBeat(mask: seq<bool>, beat: nat, x: int)
    requires |mask| == BURST && beat < 4
    ensures Chosen(BeatMask(mask, beat), x - BEAT * beat, BEAT) ==>
              Chosen(mask, x, BEAT * beat + BEAT) && !Chosen(mask, x, BEAT * beat)
  {
  }

  lemma BelowBeat(mask: seq<bool>, beat: nat, l: nat)
    requires |mask| == BURST && beat < 4 && l < BEAT * beat
    ensures !Chosen(BeatMask(mask, beat), l - BEAT * beat, BEAT)
  {
  }

  method StorePart(store: Storage, sp: StorageArray, res: Reservation, mask: seq<bool>, ghost offset: nat, beat: nat,
                   n: nat, ghost burst: nat)
    returns (words: nat)
    requires store.Valid() && sp.Valid() && |mask| == BURST && beat < 4 && Reserves(res, burst)
    requires BeatsFit(sp, mask, offset) && n == offset + Ones(mask[..BEAT * beat])
    requires Stored(store, sp, burst, mask, offset, BEAT * beat)
    modifies store, store.hashmap, store.elems, store.Data()
    ensures store.Valid()
    ensures fresh(store.elems - old(store.elems)) && fresh(store.Data() - old(store.Data()))
    ensures Stored(store, sp, burst, mask, offset, BEAT * beat + BEAT)
    ensures n + words == offset + Ones(mask[..BEAT * beat + BEAT])
    ensures forall x :: 0 <= x < ADDRESSES && !Chosen(mask, x - burst, BEAT * beat + BEAT) ==>
              old(At(store, x)) == Absent || At(store, x) == old(At(store, x))
  {
    hide Ones, At, BeatMask, Chosen, BeatsFit, Fit;
    var m := BeatMask(mask, beat);
    BeatIs(sp, mask, offset, beat);
    words := Ones(m);
    StoreBeat(store, sp, res, beat, m, n, burst);
    forall x | 0 <= x < ADDRESSES && !Chosen(mask, x - burst, BEAT * beat + BEAT)
      ensures old(At(store, x)) == Absent || At(store, x) == old(At(store, x))
    {
      ChosenInBeat(mask, beat, x - burst);
      assert !Chosen(m, x - (burst + BEAT * beat), BEAT);
    }
    forall l | 0 <= l < BEAT * beat + BEAT && mask[l]
      ensures sp.Inside(offset + Ones(mask[..l]))
      ensures At(store, burst + l) == Holds(sp.Word(offset + Ones(mask[..l])))
    {
      if l >= BEAT * beat {
        var i := l - BEAT * beat;
        assert BEAT * beat + i == l && m[i];
      } else {
        BelowBeat(mask, beat, l);
        assert !Chosen(m, burst + l - (burst + BEAT * beat), BEAT);
      }
    }
  }
}
