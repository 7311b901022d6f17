/** Requests that the sequencer accepts and does not serve as it should: one outside each of the
conditions for an exact cover, exact lines and exact placement. */
module StrideLimits {
  import opened Stride
  import opened StrideArithmetic
  import opened StrideLines
  import opened StrideSequencing
  import opened StrideRun

  const WIDTH: nat := 16

  /** A period of three words that starts five words into its window: the first phase wraps. */
  const NARROW := Descriptor(5, 1, 3, 4, IndexMemory, 0, 0, 0, 0)

  /** One word a line of 33: the lines are at times three windows apart. */
  const COLUMN := Descriptor(32, 1, 33, 32, RegisterFile, 0, 32, 0, 0)

  /** The same column, spread over every other word of a scratchpad. */
  const SPREAD_COLUMN := Descriptor(32, 1, 33, 32, Scratchpad, 0, 2, 0, 0)

  lemma NarrowShifts()
    ensures InRange(NARROW, WIDTH) && Accepted(NARROW, WIDTH) && !CoverCondition(NARROW, 5)
  {
  }

  lemma ColumnLosesLine(d: Descriptor)
    requires d == COLUMN || d == SPREAD_COLUMN
    ensures InRange(d, WIDTH) && Accepted(d, WIDTH) && CoverCondition(d, 0)
    ensures !LineSafe(d, WIDTH, 32) && (d.target == Scratchpad ==> !PlacementCondition(d, WIDTH, 32))
  {
    assert IsPowerOfTwo(8) && IsPowerOfTwo(16) && IsPowerOfTwo(32);
    assert Gap(d, WIDTH, 32, 15) == 48;
  }

  /** Whatever is emitted for it: some window is missing, superfluous, or wrongly masked. */
  lemma WrongCover(bs: seq<Burst>)
    requires Emitted(NARROW, WIDTH, 5, bs)
    ensures InRange(NARROW, WIDTH) && Accepted(NARROW, WIDTH) && 0 <= EndAddr(NARROW)
    ensures !ExactCover(NARROW, WIDTH, 0, bs)
  {
    hide ExactCover, CoverCondition, LinesExact, PhasesExact, Emitted;
    NarrowShifts();
    SequenceTheorem(NARROW, WIDTH, 5, bs);
  }

  /** Whatever is emitted for it: the windows and their masks are right, and some lane is on a wrong
      line. */
  lemma WrongLines(bs: seq<Burst>)
    requires Emitted(COLUMN, WIDTH, 0, bs)
    ensures InRange(COLUMN, WIDTH) && Accepted(COLUMN, WIDTH) && 32 <= EndAddr(COLUMN)
    ensures ExactCover(COLUMN, WIDTH, 32, bs) && !LinesExact(COLUMN, WIDTH, bs)
  {
    hide ExactCover, CoverCondition, LinesExact, PhasesExact, LineSafe, Emitted;
    ColumnLosesLine(COLUMN);
    SequenceTheorem(COLUMN, WIDTH, 0, bs);
  }

  /** Whatever is emitted for it: the windows and their masks are right, and some word goes to a wrong
      scratchpad word. */
  lemma WrongPlacement(bs: seq<Burst>)
    requires Emitted(SPREAD_COLUMN, WIDTH, 0, bs)
    ensures InRange(SPREAD_COLUMN, WIDTH) && Accepted(SPREAD_COLUMN, WIDTH) && 32 <= EndAddr(SPREAD_COLUMN)
    ensures ExactCover(SPREAD_COLUMN, WIDTH, 32, bs) && !PlacementExact(SPREAD_COLUMN, bs)
  {
    hide ExactCover, CoverCondition, LinesExact, PhasesExact, LineSafe, PlacementCondition, PlacementExact, Emitted;
    ColumnLosesLine(SPREAD_COLUMN);
    SequenceTheorem(SPREAD_COLUMN, WIDTH, 0, bs);
  }
}
