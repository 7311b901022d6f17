/** The worst-case analysis counts the scratchpad windows of a stride with a loop of its own.
It must agree with the sequencer. */
module SpStrides {
  import opened Arith
  import opened Stride
  import opened StrideArithmetic
  import opened StrideRun
  import opened StrideSequencing

  function Request(words: nat, period: nat, count: nat): Descriptor {
    Descriptor(0, words, period, count, RegisterFile, 0, 1, 0, 0)
  }

  /** A bus width is a power of two no larger than a word counter. */
  predicate BusWidth(w: nat) {
    1 <= w <= 1024 && TWO_32 % w == 0
  }

  /** The skip the loop computes from wrapping unsigned numbers. */
  function UnsignedSkip(words: nat, period: nat, w: nat, pos: nat): nat
    requires w > 0
  {
    var raw := Wrap32(period - (words + w - 1));
    if pos < words - 1 then 0
    else if pos < words + raw % w - 1 then Wrap32(AlignDown(raw, w) + w)
    else AlignDown(raw, w)
  }

  /** The wrap-around is harmless: what comes out is the empty windows, none for small periods. */
  lemma UnsignedSkipIsExact(words: nat, period: nat, w: nat, pos: nat)
    requires BusWidth(w) && 1 <= words <= period < TWO_32 / 2 && pos < period
    requires pos <= words + w - 2
    ensures UnsignedSkip(words, period, w, pos)
         == if words - 1 <= pos then EmptyWindows(period, w, pos) * w else 0
  {
    if words - 1 <= pos {
      var r, t := period - (words + w - 1), pos - (words - 1);
      assert r + w - 1 - t == period - 1 - pos;
      SkipQuotient(r, w, t);
      WrapAligned(r, w);
    }
  }

  lemma WrapAligned(r: int, w: nat)
    requires BusWidth(w) && 0 - w < r < TWO_32 / 2
    ensures Wrap32(r) % w == r % w
    ensures AlignDown(Wrap32(r), w) == Wrap32(AlignDown(r, w))
    ensures Wrap32(AlignDown(Wrap32(r), w) + w) == AlignDown(r, w) + w
    ensures r >= 0 ==> AlignDown(Wrap32(r), w) == AlignDown(r, w)
  {
    var k := TWO_32 / w;
    assert TWO_32 == k * w;
    if r < 0 {
      assert Wrap32(r) == r + k * w;
      AddMultiple(r, k, w);
      DivModUnique(r, w, 0 - 1, r + w);
    } else {
      ModBound(r, w);
    }
  }

  /** The phase of the last word of a window the loop stops at. */
  predicate LiveAt(words: nat, period: nat, w: nat, s: int)
    requires period > 0
  {
    w <= period ==> (s + w - 1) % period <= words + w - 2
  }

  /** The analysis and the sequencer move alike. */
  lemma SkipIsIncrement(words: nat, period: nat, count: nat, w: nat, pos: nat)
    requires BusWidth(w) && 1 <= words <= period < 0x10_0000 && 1 <= count < 0x10_0000
    requires pos < period && (w <= period ==> pos <= words + w - 2)
    ensures UnsignedSkip(words, period, w, pos) + w
         == AddressIncrement(Request(words, period, count), w, pos)
  {
    UnsignedSkipIsExact(words, period, w, pos);
    IncrementIsExact(Request(words, period, count), w, pos);
    EmptyWindowsFit(period, w, pos);
    if period < w && words - 1 <= pos {
      ModBound(period - 1 - pos, w);
      DivModUnique(period - 1 - pos, w, 0, period - 1 - pos);
    }
  }

  /** One window: hit, and the loop's skip leads to the next one that is. */
  lemma NextWindow(words: nat, period: nat, count: nat, w: nat, n: nat, s: int, skip: nat)
    returns (n': nat)
    requires BusWidth(w) && 1 <= words <= period < 0x10_0000 && 1 <= count < 0x10_0000
    requires 0 <= s == WindowStart(0, w, n) && LiveAt(words, period, w, s)
    requires s < EndAddr(Request(words, period, count))
    requires skip == UnsignedSkip(words, period, w, (s + w - 1) % period)
    ensures s + w + skip == WindowStart(0, w, n') && LiveAt(words, period, w, s + w + skip)
    ensures |HitWindows(Request(words, period, count), w, 0, n')|
         == |HitWindows(Request(words, period, count), w, 0, n)| + 1
  {
    hide UnsignedSkip, AddressIncrement, HitWindows, EndAddr, Move, WindowStart;
    var d := Request(words, period, count);
    assert Phase(d, s + w - 1) == (s + w - 1) % period;
    assert Phase(d, s + (skip + w) + w - 1) == (s + w + skip + w - 1) % period;
    SkipIsIncrement(words, period, count, w, Phase(d, s + w - 1));
    LivePhaseHits(d, w, s);
    StepIsMove(d, w, s, skip + w);
    MoveIsLive(d, w, s, 0, s + (skip + w), if w <= period && skip + w > period then 1 else 0);
    n' := CoverStep(d, w, 0, 0, n, 0, s + (skip + w), if w <= period && skip + w > period then 1 else 0);
  }

  lemma MoveIsLive(d: Descriptor, w: nat, s: int, lost: nat, s': int, lost': nat)
    requires d.period > 0 && w > 0 && Move(d, w, 0, s, lost, s', lost')
    ensures Live(d, w, s')
  {
  }

  lemma StepIsMove(d: Descriptor, w: nat, s: int, inc: int)
    requires FieldWidths(d, w) && Live(d, w, s)
    requires inc == AddressIncrement(d, w, Phase(d, s + w - 1))
    ensures Move(d, w, 0, s, 0, s + inc, if w <= d.period && inc > d.period then 1 else 0)
  {
    hide AddressIncrement, Live;
    NoShift(d, 0);
    MoveAligned(d, w, 0, s, Phase(d, s + w - 1), inc);
    MoveSkips(d, w, 0, s, Phase(d, s + w - 1), inc);
  }

  /** A live window holds a word of phase below the word count. */
  lemma LiveWord(words: nat, period: nat, w: nat, s: int) returns (a: int)
    requires w > 0 && 1 <= words <= period && 0 <= s && LiveAt(words, period, w, s)
    ensures s <= a < s + w && a % period < words
  {
    var d := Request(words, period, 1);
    var b := s + w - 1;
    assert Phase(d, b) == b % period;
    if Phase(d, b) < words {
      a := b;
    } else if w <= period {
      SamePeriod(d, b, words - 1);
      a := b - Phase(d, b) + (words - 1);
    } else {
      SamePeriod(d, b, 0);
      a := b - Phase(d, b);
    }
    assert Phase(d, a) == a % period;
  }

  lemma PlaceInWindow(w: nat, n: nat, s: int, i: int)
    requires w > 0 && s == WindowStart(0, w, n) && s <= i < s + w
    ensures i % w == i - s
  {
    DivModUnique(i, w, n, i - s);
  }

  lemma LastWindow(d: Descriptor, w: nat, n: nat, s: int, i: int)
    requires FieldWidths(d, w) && 1 <= d.words <= d.period && d.addr == 0
    requires 0 <= s == WindowStart(0, w, n)
    requires EndAddr(d) <= i && s <= i && i < s + w
    requires (i > s ==> s < EndAddr(d)) && Live(d, w, s)
    ensures 0 <= EndAddr(d)
    ensures |Cover(d, w, 0)| == |HitWindows(d, w, 0, n)| + if i > s then 1 else 0
  {
    hide AddressIncrement;
    StartsBeforeEnd(d, 0);
    if i > s {
      LivePhaseHits(d, w, s);
      WindowOrder(0, w, n, n + 1);
      CoverIs(d, w, 0, n + 1);
    } else {
      CoverIs(d, w, 0, n);
    }
  }

  /** The loop of the analysis counts the windows with a requested word. */
  method SpStrides(words: nat, period: nat, count: nat, w: nat) returns (windows: nat)
    requires BusWidth(w) && 1 <= words <= period < 0x10_0000 && 1 <= count < 0x10_0000
    requires EndAddr(Request(words, period, count)) < TWO_32
    ensures 0 <= EndAddr(Request(words, period, count))
    ensures windows == |Cover(Request(words, period, count), w, 0)|
  {
    hide HitWindows, AddressIncrement, LiveAt, WindowStart, UnsignedSkip, AlignDown, Wrap32, EndAddr, Cover;
    ghost var d := Request(words, period, count);
    RequestEnd(words, period, count);
    var skipcnt := Wrap32(period - (words + w - 1));
    var skiprst := skipcnt % w;
    var end := Wrap32((count - 1) * period + words);
    AlignDownNat(skipcnt, w);
    skipcnt := AlignDown(skipcnt, w);
    windows := 0;
    var haveSkipped := false;
    ghost var n, s := 0, 0;
    var i := 0;
    FirstIsLive(words, period, count, w);
    while i < end
      invariant 0 <= s == WindowStart(0, w, n) && s <= i < s + w && LiveAt(words, period, w, s)
      invariant i > s ==> s < end
      invariant windows == |HitWindows(d, w, 0, n)| + if i > s then 1 else 0
      invariant haveSkipped ==> forall a :: s <= a < i ==> a % period >= words
    {
      PlaceInWindow(w, n, s, i);
      var pos := i % period;
      if i % w == 0 {
        windows := windows + 1;
      }
      if pos < words {
        haveSkipped := false;
      }
      if i % w == w - 1 {
        ghost var a := LiveWord(words, period, w, s);
        assert !haveSkipped;
        var skip: nat := 0;
        if !haveSkipped {
          if pos >= words - 1 {
            skip := skipcnt;
            if pos < words + skiprst - 1 {
              skip := Wrap32(skip + w);
            }
          }
          if skip != 0 {
            i := i + skip;
            haveSkipped := true;
          }
        }
        SkipComputed(words, period, w, pos, skip);
        n := NextWindow(words, period, count, w, n, s, skip);
        s := s + w + skip;
      }
      i := i + 1;
    }
    LiveAtIsLive(words, period, count, w, s);
    LastWindow(d, w, n, s, i);
  }

  lemma SkipComputed(words: nat, period: nat, w: nat, pos: nat, skip: nat)
    requires w > 0
    requires var raw := Wrap32(period - (words + w - 1));
             skip == if pos < words - 1 then 0
                     else if pos < words + raw % w - 1 then Wrap32(AlignDown(raw, w) + w)
                     else AlignDown(raw, w)
    ensures skip == UnsignedSkip(words, period, w, pos)
  {
  }

  lemma RequestEnd(words: nat, period: nat, count: nat)
    requires 1 <= count && EndAddr(Request(words, period, count)) < TWO_32
    ensures Wrap32((count - 1) * period + words) == EndAddr(Request(words, period, count)) >= 0
  {
    StartsBeforeEnd(Request(words, period, count), 0);
  }

  lemma FirstIsLive(words: nat, period: nat, count: nat, w: nat)
    requires 1 <= words <= period && 1 <= w
    ensures LiveAt(words, period, w, 0) && WindowStart(0, w, 0) == 0
    ensures HitWindows(Request(words, period, count), w, 0, 0) == []
  {
    if w <= period {
      DivModUnique(w - 1, period, 0, w - 1);
    }
  }

  lemma LiveAtIsLive(words: nat, period: nat, count: nat, w: nat, s: int)
    requires 1 <= words <= period && LiveAt(words, period, w, s)
    ensures Live(Request(words, period, count), w, s)
  {
    assert Phase(Request(words, period, count), s + w - 1) == (s + w - 1) % period;
  }

  // ----- Agreement with the sequencer, wherever the request starts

  lemma RequestedMoves(d: Descriptor, a: int)
    ensures Requested(d, a) <==> Requested(d.(addr := 0), a - d.addr)
  {
    var d0 := d.(addr := 0);
    assert forall k :: PeriodStart(d, k) == PeriodStart(d0, k) + d.addr;
  }

  lemma {:induction false} HitWindowsMove(d: Descriptor, w: nat, n: nat)
    ensures |HitWindows(d, w, d.addr, n)| == |HitWindows(d.(addr := 0), w, 0, n)|
  {
    if n > 0 {
      HitWindowsMove(d, w, n - 1);
      var d0 := d.(addr := 0);
      var s, s0 := WindowStart(d.addr, w, n - 1), WindowStart(0, w, n - 1);
      if a :| s <= a < s + w && Requested(d, a) {
        RequestedMoves(d, a);
        assert s0 <= a - d.addr < s0 + w;
        assert Hit(d0, w, s0);
      }
      if a :| s0 <= a < s0 + w && Requested(d0, a) {
        RequestedMoves(d, a + d.addr);
        assert s <= a + d.addr < s + w;
        assert Hit(d, w, s);
      }
    }
  }

  /** What the analysis counts is what the scratchpad sequencer emits: any exact cover of the
      same stride, at any address, has as many windows. */
  lemma AnalysisAgrees(d: Descriptor, w: nat, bs: seq<Burst>)
    requires FieldWidths(d, w) && d.addr <= EndAddr(d) && ExactCover(d, w, d.addr, bs)
    ensures 0 <= EndAddr(Request(d.words, d.period, d.count))
    ensures |bs| == |Cover(Request(d.words, d.period, d.count), w, 0)|
  {
    var r, d0 := Request(d.words, d.period, d.count), d.(addr := 0);
    assert EndAddr(d) - d.addr == EndAddr(r);
    var n := DivUp(EndAddr(r), w);
    HitWindowsMove(d, w, n);
    SameWindows(d0, r, w, n);
  }

  lemma {:induction false} SameWindows(d: Descriptor, r: Descriptor, w: nat, n: nat)
    requires d.addr == r.addr && d.words == r.words && d.period == r.period && d.count == r.count
    ensures HitWindows(d, w, 0, n) == HitWindows(r, w, 0, n)
  {
    assert forall k :: PeriodStart(d, k) == PeriodStart(r, k);
    assert forall a :: Requested(d, a) == Requested(r, a);
    if n > 0 {
      SameWindows(d, r, w, n - 1);
    }
  }

  /** Adjacent periods need the rounded-up number of windows. */
  lemma {:induction false} DenseCount(words: nat, count: nat, w: nat)
    requires 1 <= words < 0x10_0000 && 1 <= count < 0x10_0000 && 1 <= w <= 1024
    ensures 0 <= EndAddr(Request(words, words, count)) == words * count
    ensures |Cover(Request(words, words, count), w, 0)| == DivUp(words * count, w)
  {
    var d := Request(words, words, count);
    assert (count - 1) * words + words == words * count;
    var n := DivUp(words * count, w);
    assert (words * count + w - 1) / w * w + (words * count + w - 1) % w == words * count + w - 1;
    AllHit(d, w, n);
  }

  lemma {:induction false} AllHit(d: Descriptor, w: nat, n: nat)
    requires FieldWidths(d, w) && d.addr == 0 && 1 <= d.words == d.period
    requires n > 0 ==> WindowStart(0, w, n - 1) < EndAddr(d)
    ensures |HitWindows(d, w, 0, n)| == n
  {
    if n > 0 {
      WindowOrder(0, w, n - 2, n - 1);
      WindowOrder(0, w, 0, n - 1);
      AllHit(d, w, n - 1);
      var s := WindowStart(0, w, n - 1);
      MulMono(0, n - 1, w);
      RequestedIsPhase(d, s);
      assert Hit(d, w, s);
    }
  }
}
