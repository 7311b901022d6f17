/** Scratchpad memory: words are spread over banks that are accessed side by side, from any
start word. */
module ScratchpadMemory {
  import opened Arith

  /** Words the DRAM side moves in a beat. */
  const BEAT: nat := 4

  /** The word with remainder i among the w words from n on. */
  function WordAt(n: nat, i: nat, w: nat): (x: nat)
    requires i < w
    ensures n <= x < n + w && x % w == i
  {
    var q := n / w;
    Residue(q, i, w);
    Residue(q + 1, i, w);
    assert n == q * w + n % w;
    if i >= n % w then q * w + i else (q + 1) * w + i
  }

  lemma Residue(q: nat, i: nat, w: nat)
    requires i < w
    ensures (q * w + i) % w == i && (q * w + i) / w == q
    ensures (q + 1) * w == q * w + w
  {
    DivModUnique(q * w + i, w, q, i);
  }

  lemma WordAtIs(n: nat, m: nat, w: nat)
    requires m < w
    ensures WordAt(n, (n + m) % w, w) == n + m
  {
    var x := WordAt(n, (n + m) % w, w);
    SameResidue(x, n + m, w);
  }

  lemma SameResidue(x: nat, y: nat, w: nat)
    requires w > 0 && x % w == y % w && x < y + w && y < x + w
    ensures x == y
  {
    var p, q := x / w, y / w;
    assert x == p * w + x % w && y == q * w + y % w;
    if p > q {
      MulMono(q + 1, p, w);
    } else if q > p {
      MulMono(p + 1, q, w);
    }
  }

  class StorageArray {
    const sp: array2<int>

    ghost predicate Valid() {
      sp.Length0 > 0 && sp.Length0 % BEAT == 0
    }

    function Width(): nat {
      sp.Length0
    }

    ghost predicate Inside(n: nat)
      requires Valid()
    {
      n / sp.Length0 < sp.Length1
    }

    /** Word n of the scratchpad. */
    ghost function Word(n: nat): int
      reads sp
      requires Valid() && Inside(n)
    {
      sp[n % sp.Length0, n / sp.Length0]
    }

    constructor (width: nat, depth: nat)
      requires width > 0 && width % BEAT == 0
      ensures Valid() && fresh(sp) && sp.Length0 == width && sp.Length1 == depth
    {
      sp := new int[width, depth];
    }

    /** Bank and index of lane i for an access from word n. */
    method Locate(n: nat, i: nat) returns (lbank: nat, lidx: nat)
      requires Valid() && i < BEAT
      ensures lbank < sp.Length0 && lbank == WordAt(n, i, BEAT) % sp.Length0 && lidx == WordAt(n, i, BEAT) / sp.Length0
    {
      var phase := n % sp.Length0;
      var bank := phase - phase % BEAT;
      var idx := n / sp.Length0;
      lbank, lidx := bank + i, idx;
      if lbank < phase {
        lbank := lbank + BEAT;
      }
      if lbank >= sp.Length0 {
        lbank, lidx := i, idx + 1;
      }
      LaneIsWord(n, i, sp.Length0, lbank, lidx);
    }

    /** Four words from n on; lane i carries the one whose address ends in i. */
    method DramRead(n: nat) returns (data: seq<int>)
      requires Valid() && Inside(n + BEAT - 1)
      ensures |data| == BEAT
      ensures forall i :: 0 <= i < BEAT ==> Inside(WordAt(n, i, BEAT)) && data[i] == Word(WordAt(n, i, BEAT))
    {
      data := [];
      for i := 0 to BEAT
        invariant |data| == i
        invariant forall j :: 0 <= j < i ==> Inside(WordAt(n, j, BEAT)) && data[j] == Word(WordAt(n, j, BEAT))
      {
        var lbank, lidx := Locate(n, i);
        DivMono(WordAt(n, i, BEAT), n + BEAT - 1, sp.Length0);
        data := data + [sp[lbank, lidx]];
      }
    }

    lemma WordIs(n: nat, lbank: nat, lidx: nat)
      requires Valid() && Inside(n) && lbank == n % sp.Length0 && lidx == n / sp.Length0
      ensures lidx < sp.Length1 && sp[lbank, lidx] == Word(n)
    {
    }

    lemma InsideBelow(x: nat, n: nat)
      requires Valid() && Inside(n) && x <= n
      ensures Inside(x)
    {
      DivMono(x, n, sp.Length0);
    }

    method Store(lbank: nat, lidx: nat, value: int, ghost n: nat)
      requires Valid() && Inside(n) && lbank == n % sp.Length0 && lidx == n / sp.Length0
      modifies sp
      ensures Word(n) == value && forall x: nat :: Inside(x) && x != n ==> Word(x) == old(Word(x))
    {
      sp[lbank, lidx] := value;
      forall x: nat | Inside(x) && x != n
        ensures Word(x) == old(Word(x))
      {
        if x % sp.Length0 == lbank && x / sp.Length0 == lidx {
          SamePlace(x, n, sp.Length0);
        }
      }
    }

    /** One word, for up- and downloads. */
    method DebugWrite(n: nat, value: int)
      requires Valid() && Inside(n)
      modifies sp
      ensures Word(n) == value && forall x: nat :: Inside(x) && x != n ==> Word(x) == old(Word(x))
    {
      Store(n % sp.Length0, n / sp.Length0, value, n);
    }

    method DebugRead(n: nat) returns (value: int)
      requires Valid() && Inside(n)
      ensures value == Word(n)
    {
      value := sp[n % sp.Length0, n / sp.Length0];
    }

    /** Masked words of the four from n on. */
    method DramWrite(n: nat, data: seq<int>, mask: seq<bool>)
      requires Valid() && |data| == |mask| == BEAT
      requires forall i :: 0 <= i < BEAT && mask[i] ==> Inside(WordAt(n, i, BEAT))
      modifies sp
      ensures forall x: nat :: Inside(x) ==>
                Word(x) == if n <= x < n + BEAT && mask[SpBank(x, BEAT)] then data[SpBank(x, BEAT)] else old(Word(x))
    {
      hide WordAt, Word, Inside, SpBank;
      for i := 0 to BEAT
        invariant forall x: nat :: Inside(x) ==>
                    Word(x) == if n <= x < n + BEAT && mask[SpBank(x, BEAT)] && SpBank(x, BEAT) < i
                               then data[SpBank(x, BEAT)] else old(Word(x))
      {
        if mask[i] {
          var lbank, lidx := Locate(n, i);
          Store(lbank, lidx, data[i], WordAt(n, i, BEAT));
          forall x: nat | n <= x < n + BEAT
            ensures x == WordAt(n, i, BEAT) <==> SpBank(x, BEAT) == i
          {
            OneInReach(n, i, BEAT, x);
          }
        }
      }
    }

    /** A whole row of banks from n on; bank i carries the word whose address ends in i. */
    method RfRead(n: nat) returns (data: seq<int>)
      requires Valid() && Inside(n + sp.Length0 - 1)
      ensures |data| == sp.Length0
      ensures forall i :: 0 <= i < sp.Length0 ==>
                Inside(WordAt(n, i, sp.Length0)) && data[i] == Word(WordAt(n, i, sp.Length0))
    {
      hide WordAt, Word, Inside;
      var phase, idx := n % sp.Length0, n / sp.Length0;
      data := [];
      for i := 0 to sp.Length0
        invariant |data| == i
        invariant forall j :: 0 <= j < i ==>
                    Inside(WordAt(n, j, sp.Length0)) && data[j] == Word(WordAt(n, j, sp.Length0))
      {
        ghost var y := WordAt(n, i, sp.Length0);
        BankIsWord(n, i, sp.Length0);
        InsideBelow(y, n + sp.Length0 - 1);
        var lidx := if i < phase then idx + 1 else idx;
        WordIs(y, i, lidx);
        data := data + [sp[i, lidx]];
      }
    }

    method RfWrite(n: nat, data: seq<int>, mask: seq<bool>)
      requires Valid() && |data| == |mask| == sp.Length0
      requires forall i :: 0 <= i < sp.Length0 && mask[i] ==> Inside(WordAt(n, i, sp.Length0))
      modifies sp
      ensures forall x: nat :: Inside(x) ==>
                Word(x) == if n <= x < n + sp.Length0 && mask[SpBank(x, sp.Length0)] then data[SpBank(x, sp.Length0)]
                           else old(Word(x))
    {
      hide WordAt, Word, Inside, SpBank;
      for i := 0 to sp.Length0
        invariant forall x: nat :: Inside(x) ==>
                    Word(x) == if n <= x < n + sp.Length0 && mask[SpBank(x, sp.Length0)] && SpBank(x, sp.Length0) < i
                               then data[SpBank(x, sp.Length0)] else old(Word(x))
      {
        if mask[i] {
          RfStore(n, i, data[i]);
          forall x: nat | n <= x < n + sp.Length0
            ensures x == WordAt(n, i, sp.Length0) <==> SpBank(x, sp.Length0) == i
          {
            OneInReach(n, i, sp.Length0, x);
          }
        }
      }
    }

    method RfStore(n: nat, i: nat, value: int)
      requires Valid() && i < sp.Length0 && Inside(WordAt(n, i, sp.Length0))
      modifies sp
      ensures Word(WordAt(n, i, sp.Length0)) == value
      ensures forall x: nat :: Inside(x) && x != WordAt(n, i, sp.Length0) ==> Word(x) == old(Word(x))
    {
      hide WordAt, Word, Inside;
      var phase, idx := n % sp.Length0, n / sp.Length0;
      BankIsWord(n, i, sp.Length0);
      Store(i, if i < phase then idx + 1 else idx, value, WordAt(n, i, sp.Length0));
    }
  }

  lemma InsideIsBelow(n: nat, width: nat, depth: nat)
    requires width > 0
    ensures n / width < depth <==> n < depth * width
  {
    assert n == n / width * width + n % width;
    if n / width < depth {
      MulStep(n / width, depth, width);
    } else {
      MulMono(depth, n / width, width);
    }
  }

  function SpBank(x: nat, w: nat): (b: nat)
    requires w > 0
    ensures b < w
  {
    x % w
  }

  lemma OneInReach(n: nat, i: nat, w: nat, x: nat)
    requires i < w && n <= x < n + w
    ensures x == WordAt(n, i, w) <==> SpBank(x, w) == i
  {
    if x % w == i {
      SameResidue(x, WordAt(n, i, w), w);
    }
  }

  /** Lane of word n + i. */
  function Turn(n: nat, i: nat, w: nat): (j: nat)
    requires w > 0
    ensures j < w
  {
    (n + i) % w
  }

  lemma TurnFacts(n: nat, i: nat, w: nat)
    requires i < w
    ensures Turn(n, 0, w) == n % w && Turn(n, i + 1, w) == (Turn(n, i, w) + 1) % w
    ensures forall k :: 0 <= k < i ==> Turn(n, k, w) != Turn(n, i, w)
    ensures WordAt(n, Turn(n, i, w), w) == n + i && SpBank(n + i, w) == Turn(n, i, w)
  {
    hide WordAt;
    var x := n + i;
    assert x + 1 == x % w + 1 + x / w * w;
    AddMultiple(x % w + 1, x / w, w);
    forall k | 0 <= k < i
      ensures Turn(n, k, w) != Turn(n, i, w)
    {
      if (n + k) % w == x % w {
        SameResidue(n + k, x, w);
      }
    }
    WordAtIs(n, i, w);
  }

  /** Place item i in the lane of word n + i. */
  method Rotate<T(0)>(items: seq<T>, n: nat) returns (r: seq<T>)
    requires items != []
    ensures |r| == |items| && forall i :: 0 <= i < |items| ==> r[Turn(n, i, |items|)] == items[i]
  {
    hide Turn;
    var w := |items|;
    r := items;
    var j := n % w;
    TurnFacts(n, 0, w);
    for i := 0 to w
      invariant |r| == w && j == Turn(n, i, w)
      invariant forall k :: 0 <= k < i ==> r[Turn(n, k, w)] == items[k]
    {
      TurnFacts(n, i, w);
      r := r[j := items[i]];
      j := (j + 1) % w;
    }
  }

  /** A window from scratchpad to registers: the lane that carries word n + i also carries the
      register index and mask bit of item i. */
  method WindowToRegisters(sp: StorageArray, n: nat, indexes: seq<nat>, mask: seq<bool>)
    returns (data: seq<int>, lanes: seq<nat>, enabled: seq<bool>)
    requires sp.Valid() && |indexes| == |mask| == sp.Width() && sp.Inside(n + sp.Width() - 1)
    ensures |data| == |lanes| == |enabled| == |mask|
    ensures forall i :: 0 <= i < |mask| ==>
              Carries(sp, n, data, lanes, enabled, Turn(n, i, |mask|), i, indexes[i], mask[i])
  {
    hide WordAt, Turn, Carries;
    data := sp.RfRead(n);
    lanes := Rotate(indexes, n);
    enabled := Rotate(mask, n);
    forall i | 0 <= i < |mask|
      ensures Carries(sp, n, data, lanes, enabled, Turn(n, i, |mask|), i, indexes[i], mask[i])
    {
      TurnFacts(n, i, |mask|);
      LaneCarries(sp, n, data, lanes, enabled, Turn(n, i, |mask|), i, indexes[i], mask[i]);
    }
  }

  /** Lane j has word n + i and the given register index and mask bit. */
  ghost predicate Carries(sp: StorageArray, n: nat, data: seq<int>, lanes: seq<nat>, enabled: seq<bool>, j: nat, i: nat,
                          index: nat, bit: bool)
    reads sp.sp
    requires sp.Valid() && |data| == |lanes| == |enabled| && j < |data|
  {
    sp.Inside(n + i) && data[j] == sp.Word(n + i) && lanes[j] == index && enabled[j] == bit
  }

  lemma LaneCarries(sp: StorageArray, n: nat, data: seq<int>, lanes: seq<nat>, enabled: seq<bool>, j: nat, i: nat,
                    index: nat, bit: bool)
    requires sp.Valid() && |data| == |lanes| == |enabled| == sp.Width() && j < |data|
    requires WordAt(n, j, sp.Width()) == n + i
    requires sp.Inside(WordAt(n, j, sp.Width())) && data[j] == sp.Word(WordAt(n, j, sp.Width()))
    requires lanes[j] == index && enabled[j] == bit
    ensures Carries(sp, n, data, lanes, enabled, j, i, index, bit)
  {
  }

  /** A window from registers: item i, if selected, becomes word n + i; nothing else changes. */
  method WindowFromRegisters(sp: StorageArray, n: nat, values: seq<int>, mask: seq<bool>)
    requires sp.Valid() && |values| == |mask| == sp.Width()
    requires forall i :: 0 <= i < sp.Width() && mask[i] ==> sp.Inside(n + i)
    modifies sp.sp
    ensures forall i :: 0 <= i < sp.Width() && mask[i] ==> sp.Word(n + i) == values[i]
    ensures forall x: nat :: sp.Inside(x) && !(n <= x < n + sp.Width() && mask[x - n]) ==> sp.Word(x) == old(sp.Word(x))
  {
    hide WordAt, SpBank, Turn;
    var data := Rotate(values, n);
    var enabled := Rotate(mask, n);
    forall i | 0 <= i < sp.Width()
      ensures enabled[i] ==> sp.Inside(WordAt(n, i, sp.Width()))
    {
      var x := WordAt(n, i, sp.Width());
      OneInReach(n, i, sp.Width(), x);
      TurnFacts(n, x - n, sp.Width());
      assert enabled[Turn(n, x - n, sp.Width())] == mask[x - n];
    }
    sp.RfWrite(n, data, enabled);
    forall x: nat | n <= x < n + sp.Width()
      ensures enabled[SpBank(x, sp.Width())] == mask[x - n] && data[SpBank(x, sp.Width())] == values[x - n]
    {
      TurnFacts(n, x - n, sp.Width());
    }
    forall i | 0 <= i < sp.Width() && mask[i]
      ensures sp.Word(n + i) == values[i]
    {
      assert enabled[SpBank(n + i, sp.Width())] == mask[n + i - n];
    }
  }

  lemma SamePlace(x: nat, y: nat, w: nat)
    requires w > 0 && x % w == y % w && x / w == y / w
    ensures x == y
  {
    assert x == x / w * w + x % w;
    assert y == y / w * w + y % w;
  }

  lemma BankIsWord(n: nat, i: nat, w: nat)
    requires i < w
    ensures WordAt(n, i, w) % w == i && WordAt(n, i, w) / w == if i < n % w then n / w + 1 else n / w
  {
    Residue(n / w, i, w);
    Residue(n / w + 1, i, w);
  }

  lemma LaneIsWord(n: nat, i: nat, w: nat, lbank: nat, lidx: nat)
    requires w > 0 && w % BEAT == 0 && i < BEAT
    requires var m := RowLane(n % w, i); if m >= w then lbank == i && lidx == n / w + 1 else lbank == m && lidx == n / w
    ensures lbank < w && lbank == WordAt(n, i, BEAT) % w && lidx == WordAt(n, i, BEAT) / w
  {
    hide RowLane, WordAt;
    var q, phase := n / w, n % w;
    var x := WordAt(n, i, BEAT);
    LaneInReach(phase, w, i);
    QuartersEnd(lidx, w, lbank, i);
    LaneInRow(n, w, q, phase, RowLane(phase, i), i, lbank, lidx);
    SameResidue(x, lidx * w + lbank, BEAT);
    DivModUnique(x, w, lidx, lbank);
  }

  lemma LaneInRow(n: nat, w: nat, q: nat, phase: nat, m: nat, i: nat, lbank: nat, lidx: nat)
    requires w > 0 && q == n / w && phase == n % w && phase <= m < phase + BEAT && (m >= w ==> m == w + i)
    requires if m >= w then lbank == i && lidx == q + 1 else lbank == m && lidx == q
    ensures n <= lidx * w + lbank < n + BEAT
  {
    assert n == q * w + phase;
    assert (q + 1) * w == q * w + w;
  }

  /** Lane of the four from a phase on, counted from the start of the row. */
  function RowLane(phase: nat, i: nat): nat {
    var l := phase - phase % BEAT + i;
    if l < phase then l + BEAT else l
  }

  lemma LaneInReach(phase: nat, w: nat, i: nat)
    requires phase < w && w % BEAT == 0 && i < BEAT
    ensures RowLane(phase, i) % BEAT == i && phase <= RowLane(phase, i) < phase + BEAT
    ensures RowLane(phase, i) >= w ==> RowLane(phase, i) == w + i
    ensures i % BEAT == i && i < w
  {
    var k, t := w / BEAT, phase / BEAT;
    assert w == k * BEAT && phase == t * BEAT + phase % BEAT;
    assert t < k;
  }

  lemma QuartersEnd(q: nat, w: nat, l: nat, i: nat)
    requires w % BEAT == 0 && l % BEAT == i
    ensures (q * w + l) % BEAT == i
  {
    var k := w / BEAT;
    Regroup(q, k);
    AddMultiple(l, q * k, BEAT);
  }

  lemma Regroup(q: nat, k: nat)
    ensures q * (k * BEAT) == q * k * BEAT
  {
  }
}
