/**
 * The search that makes the parallel input and the CSI-2 output fit
 * together: the FIFO depth for one (link setting, width)
 * (tc358746_adjust_fifo_size) and the fallback over link settings and
 * narrower widths (tc358746_adjust_timings).
 *
 * All times are unsigned 32-bit picosecond counts; the three fit tests read
 * an unsigned difference as a signed int.
 */
module FifoSolver {
  import opened U32
  import opened Dphy
  import opened Formats

  /** One past the largest FIFO depth (the FIFO holds 511 words of 32 bits). */
  const MAX_FIFO_SIZE: u32 := 512

  /** The timing of the parallel input: pixel clock in Hz and horizontal
      blanking in pixels. */
  datatype ParallelTiming = ParallelTiming(pclk: u32, hblank: u32)

  /** The search divides by pclk / 1000, by the CSI bit rate / 1000, by the
      byte clock / 1000 and by the bus width; none of them may be zero. */
  predicate SearchDefined(pt: ParallelTiming, fmt: MbusFmt, s: CsiParam) {
    pt.pclk >= 1000 && s.speedPerLane >= 8000 && Mul(s.speedPerLane, s.laneNum) >= 1000
    && fmt.busWidth > 0
  }

  /** pclk_period_ps. */
  function PclkPeriodPs(pt: ParallelTiming): u32
    requires pt.pclk >= 1000
  {
    Div(1000000000, Div(pt.pclk, 1000))
  }

  /** csi_bps_period_ps: the period of one bit over all lanes together. */
  function CsiBpsPeriodPs(s: CsiParam): u32
    requires Mul(s.speedPerLane, s.laneNum) >= 1000
  {
    Div(1000000000, Div(Mul(s.speedPerLane, s.laneNum), 1000))
  }

  /** p_hactive_ps: the active part of an input line. */
  function PHactivePs(pt: ParallelTiming, fmt: MbusFmt, width: int): u32
    requires pt.pclk >= 1000
  {
    Mul(Mul(PclkPeriodPs(pt), fmt.ppp), Wrap(width))
  }

  /** p_htotal_ps: a whole input line, blanking included. */
  function PHtotalPs(pt: ParallelTiming, fmt: MbusFmt, width: int): u32
    requires pt.pclk >= 1000
  {
    Add(Mul(PclkPeriodPs(pt), pt.hblank), PHactivePs(pt, fmt, width))
  }

  /** c_fifo_delay_ps for FIFO depth `f`. */
  function CFifoDelayPs(pt: ParallelTiming, fmt: MbusFmt, s: CsiParam, f: u32): u32
    requires SearchDefined(pt, fmt, s)
  {
    Add(Div(Mul(Mul(f, 32), PclkPeriodPs(pt)), fmt.busWidth), Mul(4, HsClkPeriodPs(s.speedPerLane)))
  }

  /** c_hactive_ps: the active line on the CSI-2 side, FIFO delay included. */
  function CHactivePs(pt: ParallelTiming, fmt: MbusFmt, s: CsiParam, width: int, f: u32): u32
    requires SearchDefined(pt, fmt, s)
  {
    Add(Mul(Mul(CsiBpsPeriodPs(s), fmt.bpp), Wrap(width)), CFifoDelayPs(pt, fmt, s, f))
  }

  /** The three tests of one iteration, each an unsigned difference read as
      a signed int and compared with zero. */
  predicate FifoFits(pt: ParallelTiming, fmt: MbusFmt, s: CsiParam, width: int, f: u32)
    requires SearchDefined(pt, fmt, s)
  {
    var ch := CHactivePs(pt, fmt, s, width, f);
    var ptotal := PHtotalPs(pt, fmt, width);
    PositiveAsInt(Sub(ch, PHactivePs(pt, fmt, width)))
    && PositiveAsInt(Sub(ptotal, ch))
    && PositiveAsInt(Sub(Sub(ptotal, ch), s.csiHsLpHsPs))
  }

  /** The least depth at or above `f` that fits, or 512 when none below 512 does. */
  function MinFifoFrom(pt: ParallelTiming, fmt: MbusFmt, s: CsiParam, width: int, f: u32): (r: u32)
    requires SearchDefined(pt, fmt, s)
    requires 1 <= f <= MAX_FIFO_SIZE
    ensures f <= r <= MAX_FIFO_SIZE
    ensures r < MAX_FIFO_SIZE ==> FifoFits(pt, fmt, s, width, r)
    ensures forall g: u32 :: f <= g < r ==> !FifoFits(pt, fmt, s, width, g)
    decreases MAX_FIFO_SIZE - f
  {
    if f == MAX_FIFO_SIZE then MAX_FIFO_SIZE
    else if FifoFits(pt, fmt, s, width, f) then f
    else MinFifoFrom(pt, fmt, s, width, f + 1)
  }

  /** The least depth in 1..511 that fits, or 512 when none does. */
  function MinFifo(pt: ParallelTiming, fmt: MbusFmt, s: CsiParam, width: int): u32
    requires SearchDefined(pt, fmt, s)
  {
    MinFifoFrom(pt, fmt, s, width, 1)
  }

  /** Some depth in 1..511 fits the link setting at this width. */
  predicate FitsAt(pt: ParallelTiming, fmt: MbusFmt, s: CsiParam, width: int) {
    SearchDefined(pt, fmt, s) && MinFifo(pt, fmt, s, width) < MAX_FIFO_SIZE
  }

  /** The least depth is determined by its two defining properties. */
  lemma MinFifoUnique(pt: ParallelTiming, fmt: MbusFmt, s: CsiParam, width: int, f: u32)
    requires SearchDefined(pt, fmt, s)
    requires 1 <= f <= MAX_FIFO_SIZE
    requires forall g: u32 :: 1 <= g < f ==> !FifoFits(pt, fmt, s, width, g)
    requires f < MAX_FIFO_SIZE ==> FifoFits(pt, fmt, s, width, f)
    ensures MinFifo(pt, fmt, s, width) == f
  {
  }

  /** FitsAt holds exactly when some depth in 1..511 passes the three tests. */
  lemma FitsAtIff(pt: ParallelTiming, fmt: MbusFmt, s: CsiParam, width: int)
    requires SearchDefined(pt, fmt, s)
    ensures FitsAt(pt, fmt, s, width) <==>
      exists f: u32 :: 1 <= f < MAX_FIFO_SIZE && FifoFits(pt, fmt, s, width, f)
  {
    var m := MinFifo(pt, fmt, s, width);
    if !FitsAt(pt, fmt, s, width) {
      assert forall f: u32 :: 1 <= f < MAX_FIFO_SIZE ==> !FifoFits(pt, fmt, s, width, f);
    }
  }

  /**
   * tc358746_adjust_fifo_size: scans the depth upwards from 1 and stops at
   * the first that passes the three tests.  The depth reached is always
   * written out; it is 512, with -EINVAL, when no depth below 512 fits.
   */
  method AdjustFifoSize(pt: ParallelTiming, fmt: MbusFmt, s: CsiParam, width: int)
    returns (err: int, fifoSize: u16)
    requires SearchDefined(pt, fmt, s)
    ensures 1 <= fifoSize <= MAX_FIFO_SIZE
    ensures fifoSize == MinFifo(pt, fmt, s, width)
    ensures fifoSize < MAX_FIFO_SIZE ==> FifoFits(pt, fmt, s, width, fifoSize)
    ensures forall g: u32 :: 1 <= g < fifoSize ==> !FifoFits(pt, fmt, s, width, g)
    ensures err == 0 <==> fifoSize < MAX_FIFO_SIZE
    ensures err == 0 || err == -EINVAL
  {
    var pclkPeriodPs := Div(1000000000, Div(pt.pclk, 1000));
    var csiBps := Mul(s.speedPerLane, s.laneNum);
    var csiBpsPeriodPs := Div(1000000000, Div(csiBps, 1000));
    var csiHsclk := s.speedPerLane / 8;
    var csiHsclkPeriodPs := Div(1000000000, Div(csiHsclk, 1000));
    var pHactivePs := Mul(Mul(pclkPeriodPs, fmt.ppp), Wrap(width));
    var pHblankPs := Mul(pclkPeriodPs, pt.hblank);
    var pHtotalPs := Add(pHblankPs, pHactivePs);
    var f: u32 := 1;
    while f < MAX_FIFO_SIZE
      invariant 1 <= f <= MAX_FIFO_SIZE
      invariant forall g: u32 :: 1 <= g < f ==> !FifoFits(pt, fmt, s, width, g)
      decreases MAX_FIFO_SIZE - f
    {
      var cFifoDelayPs := Mul(Mul(f, 32), pclkPeriodPs);
      cFifoDelayPs := Div(cFifoDelayPs, fmt.busWidth);
      cFifoDelayPs := Add(cFifoDelayPs, Mul(4, csiHsclkPeriodPs));
      var cHactivePs := Mul(Mul(csiBpsPeriodPs, fmt.bpp), Wrap(width));
      cHactivePs := Add(cHactivePs, cFifoDelayPs);
      var cLpActivePs := Sub(pHtotalPs, cHactivePs);
      var cHactivePsDiff := Sub(cHactivePs, pHactivePs);
      var cFifoDelayPsDiff := Sub(pHtotalPs, cHactivePs);
      var cLpActivePsDiff := Sub(cLpActivePs, s.csiHsLpHsPs);
      if PositiveAsInt(cHactivePsDiff) && PositiveAsInt(cFifoDelayPsDiff) && PositiveAsInt(cLpActivePsDiff) {
        assert FifoFits(pt, fmt, s, width, f);
        break;
      }
      f := f + 1;
    }
    MinFifoUnique(pt, fmt, s, width, f);
    fifoSize := f;
    err := if f == MAX_FIFO_SIZE then -EINVAL else 0;
  }

  // ---------------------------------------------------------------------
  // The fit tests as inequalities on exact quantities.
  // ---------------------------------------------------------------------

  /** c_hactive_ps as a mathematical integer, before any wrap. */
  function ExactCHactive(pt: ParallelTiming, fmt: MbusFmt, s: CsiParam, width: int, f: int): int
    requires SearchDefined(pt, fmt, s)
  {
    Mul(Mul(CsiBpsPeriodPs(s), fmt.bpp), Wrap(width))
      + (f * 32 * PclkPeriodPs(pt)) / fmt.busWidth
      + Mul(4, HsClkPeriodPs(s.speedPerLane))
  }

  /** Depth `f` is in the scanned range and every quantity of its
      iteration stays below 2^31, so no difference wraps. */
  predicate NoOverflow(pt: ParallelTiming, fmt: MbusFmt, s: CsiParam, width: int, f: u32)
    requires SearchDefined(pt, fmt, s)
  {
    1 <= f < MAX_FIFO_SIZE
    && f * 32 * PclkPeriodPs(pt) < TWO_32
    && ExactCHactive(pt, fmt, s, width, f) < TWO_31
    && PHactivePs(pt, fmt, width) < TWO_31
    && PHtotalPs(pt, fmt, width) < TWO_31
    && s.csiHsLpHsPs < TWO_31
  }

  /** Without overflow the computed c_hactive_ps is the exact one. */
  lemma CHactiveExact(pt: ParallelTiming, fmt: MbusFmt, s: CsiParam, width: int, f: u32)
    requires SearchDefined(pt, fmt, s)
    requires f < MAX_FIFO_SIZE
    requires f * 32 * PclkPeriodPs(pt) < TWO_32
    requires ExactCHactive(pt, fmt, s, width, f) < TWO_32
    ensures CHactivePs(pt, fmt, s, width, f) == ExactCHactive(pt, fmt, s, width, f)
  {
    var p := PclkPeriodPs(pt);
    MulExact(f, 32);
    MulExact(f * 32, p);
    var d := (f * 32 * p) / fmt.busWidth;
    DivIsBelow(f * 32 * p, fmt.busWidth);
    assert Div(Mul(Mul(f, 32), p), fmt.busWidth) == d;
    var h4 := Mul(4, HsClkPeriodPs(s.speedPerLane));
    var b := Mul(Mul(CsiBpsPeriodPs(s), fmt.bpp), Wrap(width));
    AddExact(d, h4);
    assert CFifoDelayPs(pt, fmt, s, f) == d + h4;
    AddExact(b, d + h4);
  }

  /** c_hactive_ps is nondecreasing in the FIFO depth while nothing wraps. */
  lemma CHactiveMonotone(pt: ParallelTiming, fmt: MbusFmt, s: CsiParam, width: int, f1: u32, f2: u32)
    requires SearchDefined(pt, fmt, s)
    requires f1 <= f2 < MAX_FIFO_SIZE
    requires f2 * 32 * PclkPeriodPs(pt) < TWO_32
    requires ExactCHactive(pt, fmt, s, width, f2) < TWO_32
    ensures ExactCHactive(pt, fmt, s, width, f1) <= ExactCHactive(pt, fmt, s, width, f2)
    ensures CHactivePs(pt, fmt, s, width, f1) <= CHactivePs(pt, fmt, s, width, f2)
  {
    var p := PclkPeriodPs(pt);
    MulMono(f1 * 32, f2 * 32, p);
    DivMono(f1 * 32 * p, f2 * 32 * p, fmt.busWidth);
    CHactiveExact(pt, fmt, s, width, f1);
    CHactiveExact(pt, fmt, s, width, f2);
  }

  /** No overflow at a depth means none at any smaller depth. */
  lemma NoOverflowDown(pt: ParallelTiming, fmt: MbusFmt, s: CsiParam, width: int, f1: u32, f2: u32)
    requires SearchDefined(pt, fmt, s)
    requires 1 <= f1 <= f2
    requires NoOverflow(pt, fmt, s, width, f2)
    ensures NoOverflow(pt, fmt, s, width, f1)
  {
    MulMono(f1 * 32, f2 * 32, PclkPeriodPs(pt));
    CHactiveMonotone(pt, fmt, s, width, f1, f2);
  }

  /**
   * Without overflow the three signed tests are the driver's own two
   * conditions: c_hactive_ps comes after p_hactive_ps (the CSI-2 line does
   * not overtake the parallel one), and the FIFO does not overflow (the
   * CSI-2 line, together with the HS-LP-HS turnaround, ends before
   * p_htotal_ps).
   */
  lemma FifoFitsMath(pt: ParallelTiming, fmt: MbusFmt, s: CsiParam, width: int, f: u32)
    requires SearchDefined(pt, fmt, s)
    requires NoOverflow(pt, fmt, s, width, f)
    ensures FifoFits(pt, fmt, s, width, f) <==>
      PHactivePs(pt, fmt, width) < ExactCHactive(pt, fmt, s, width, f)
      && ExactCHactive(pt, fmt, s, width, f) + s.csiHsLpHsPs < PHtotalPs(pt, fmt, width)
  {
    CHactiveExact(pt, fmt, s, width, f);
    SignedTests(CHactivePs(pt, fmt, s, width, f), PHactivePs(pt, fmt, width),
                PHtotalPs(pt, fmt, width), s.csiHsLpHsPs);
  }

  /** The three signed tests on values below 2^31. */
  lemma SignedTests(ch: u32, ph: u32, ptot: u32, hs: u32)
    requires ch < TWO_31 && ph < TWO_31 && ptot < TWO_31 && hs < TWO_31
    ensures PositiveAsInt(Sub(ch, ph)) && PositiveAsInt(Sub(ptot, ch))
            && PositiveAsInt(Sub(Sub(ptot, ch), hs))
        <==> ph < ch && ch + hs < ptot
  {
    SubAddCancel(ch, ph);
    if ch >= ph {
      SubExact(ch, ph);
    }
    SubAddCancel(ptot, ch);
    if ptot >= ch {
      SubExact(ptot, ch);
      SubAddCancel(ptot - ch, hs);
      if ptot - ch >= hs {
        SubExact(ptot - ch, hs);
      }
    }
  }

  /** Once the first test fails at a depth, it fails at every smaller depth. */
  lemma TooShallowBelow(pt: ParallelTiming, fmt: MbusFmt, s: CsiParam, width: int, f1: u32, f2: u32)
    requires SearchDefined(pt, fmt, s)
    requires 1 <= f1 <= f2
    requires NoOverflow(pt, fmt, s, width, f2)
    requires ExactCHactive(pt, fmt, s, width, f2) <= PHactivePs(pt, fmt, width)
    ensures !FifoFits(pt, fmt, s, width, f1)
  {
    NoOverflowDown(pt, fmt, s, width, f1, f2);
    CHactiveMonotone(pt, fmt, s, width, f1, f2);
    FifoFitsMath(pt, fmt, s, width, f1);
  }

  /** Without overflow the depths that fit form an interval. */
  lemma FitsFormInterval(pt: ParallelTiming, fmt: MbusFmt, s: CsiParam, width: int,
                         f1: u32, f2: u32, f3: u32)
    requires SearchDefined(pt, fmt, s)
    requires 1 <= f1 <= f2 <= f3
    requires NoOverflow(pt, fmt, s, width, f3)
    requires FifoFits(pt, fmt, s, width, f1) && FifoFits(pt, fmt, s, width, f3)
    ensures FifoFits(pt, fmt, s, width, f2)
  {
    NoOverflowDown(pt, fmt, s, width, f1, f3);
    NoOverflowDown(pt, fmt, s, width, f2, f3);
    CHactiveMonotone(pt, fmt, s, width, f1, f2);
    CHactiveMonotone(pt, fmt, s, width, f2, f3);
    FifoFitsMath(pt, fmt, s, width, f1);
    FifoFitsMath(pt, fmt, s, width, f2);
    FifoFitsMath(pt, fmt, s, width, f3);
  }

  /** The scenario of FifoAt432MFourLanes. */
  predicate Scenario432M(pt: ParallelTiming, fmt: MbusFmt, s: CsiParam, width: int) {
    && pt == ParallelTiming(74250000, 280) && width == 640
    && fmt == Table[0]
    && s.speedPerLane == 432000000 && s.laneNum == 4
  }

  lemma ScenarioPeriods(pt: ParallelTiming, fmt: MbusFmt, s: CsiParam, width: int)
    requires Scenario432M(pt, fmt, s, width)
    ensures SearchDefined(pt, fmt, s)
    ensures PclkPeriodPs(pt) == 13468 && CsiBpsPeriodPs(s) == 578
    ensures HsClkPeriodPs(s.speedPerLane) == 18518
  {
    PeriodsAt432M();
    MulExact(s.speedPerLane, s.laneNum);
  }

  lemma ScenarioParallelLine(pt: ParallelTiming, fmt: MbusFmt, s: CsiParam, width: int)
    requires Scenario432M(pt, fmt, s, width)
    ensures PHactivePs(pt, fmt, width) == 17239040
    ensures PHtotalPs(pt, fmt, width) == 21010080
  {
    ScenarioPeriods(pt, fmt, s, width);
    MulExact(13468, 2);
    MulExact(26936, 640);
    MulExact(13468, 280);
    AddExact(3771040, 17239040);
  }

  lemma ScenarioCsiLine(pt: ParallelTiming, fmt: MbusFmt, s: CsiParam, width: int, f: u32)
    requires Scenario432M(pt, fmt, s, width)
    requires f == 208 || f == 209
    ensures ExactCHactive(pt, fmt, s, width, f) == 5992792 + 53872 * f
  {
    ScenarioPeriods(pt, fmt, s, width);
    MulExact(578, 16);
    MulExact(9248, 640);
    MulExact(4, 18518);
    assert (f * 32 * 13468) / 8 == 53872 * f;
  }

  /**
   * A 640-pixel UYVY8_2X8 line at 74.25 MHz with 280 pixels of blanking,
   * sent over four lanes at 432 Mbit/s with a continuous clock, needs a
   * FIFO of 209 words: below that the CSI-2 line would end before the
   * parallel one.
   */
  lemma FifoAt432MFourLanes(pt: ParallelTiming, fmt: MbusFmt, s: CsiParam, width: int)
    requires Scenario432M(pt, fmt, s, width)
    requires s.csiHsLpHsPs == HsLpHsPs(432000000, true)
    ensures SearchDefined(pt, fmt, s)
    ensures MinFifo(pt, fmt, s, width) == 209
  {
    ScenarioPeriods(pt, fmt, s, width);
    ScenarioParallelLine(pt, fmt, s, width);
    ScenarioCsiLine(pt, fmt, s, width, 208);
    ScenarioCsiLine(pt, fmt, s, width, 209);
    ContinuousTurnaroundAt432M(s.speedPerLane);
    FifoFitsMath(pt, fmt, s, width, 209);
    forall g: u32 | 1 <= g < 209
      ensures !FifoFits(pt, fmt, s, width, g)
    {
      TooShallowBelow(pt, fmt, s, width, g, 208);
    }
    MinFifoUnique(pt, fmt, s, width, 209);
  }

  // ---------------------------------------------------------------------
  // The fallback over narrower widths and other link settings.
  // ---------------------------------------------------------------------

  /** `v` is one of the widths the fallback tries from `width`: width,
      width - 10, ... while positive. */
  predicate Tried(width: int, v: int) {
    0 < v <= width && (width - v) % 10 == 0
  }

  /** No link setting fits at width `v`. */
  predicate NoneFits(pt: ParallelTiming, fmt: MbusFmt, settings: seq<CsiParam>, v: int) {
    forall k :: 0 <= k < |settings| ==> !FitsAt(pt, fmt, settings[k], v)
  }

  /** Two widths on the same step-10 ladder that are less than 10 apart are equal. */
  lemma LadderStep(width: int, w: int, v: int)
    requires (width - w) % 10 == 0 && (width - v) % 10 == 0
    requires w - 10 < v <= w
    ensures v == w
  {
    var a := width - w;
    var b := width - v;
    assert a == 10 * (a / 10) && b == 10 * (b / 10);
  }

  /** After width `w` failed everywhere, every tried width above w - 10
      has failed, and w - 10 is the next rung of the ladder. */
  lemma NextRung(pt: ParallelTiming, fmt: MbusFmt, settings: seq<CsiParam>, width: int, w: int)
    requires forall k :: 0 <= k < |settings| ==> SearchDefined(pt, fmt, settings[k])
    requires (width - w) % 10 == 0
    requires forall v :: Tried(width, v) && v > w ==> NoneFits(pt, fmt, settings, v)
    requires NoneFits(pt, fmt, settings, w)
    ensures (width - (w - 10)) % 10 == 0
    ensures forall v :: Tried(width, v) && v > w - 10 ==> NoneFits(pt, fmt, settings, v)
  {
    var a := width - w;
    assert a == 10 * (a / 10);
    assert a + 10 == 10 * (a / 10 + 1);
    forall v | Tried(width, v) && v > w - 10
      ensures NoneFits(pt, fmt, settings, v)
    {
      if v <= w {
        LadderStep(width, w, v);
      }
    }
  }

  /**
   * The inner loop of tc358746_adjust_timings at one width, entered after
   * the current setting `cur` failed there (leaving 512 in *fifo_size):
   * every other setting in ascending order, stopping at the first fit.
   */
  method TryOtherSettings(pt: ParallelTiming, fmt: MbusFmt, settings: seq<CsiParam>, cur: nat, w: int)
    returns (err: int, freq: int, fifoSize: u16)
    requires cur < |settings| < TWO_31
    requires forall k :: 0 <= k < |settings| ==> SearchDefined(pt, fmt, settings[k])
    requires !FitsAt(pt, fmt, settings[cur], w)
    ensures err == 0 || err == -EINVAL
    ensures err == 0 ==>
      0 <= freq < |settings| && freq != cur
      && FitsAt(pt, fmt, settings[freq], w)
      && (forall k :: 0 <= k < freq && k != cur ==> !FitsAt(pt, fmt, settings[k], w))
      && fifoSize == MinFifo(pt, fmt, settings[freq], w)
    ensures err != 0 ==>
      freq == |settings| && fifoSize == MAX_FIFO_SIZE && NoneFits(pt, fmt, settings, w)
  {
    err := -EINVAL;
    fifoSize := MAX_FIFO_SIZE;
    freq := 0;
    while freq < |settings|
      invariant 0 <= freq <= |settings|
      invariant fifoSize == MAX_FIFO_SIZE
      invariant forall k :: 0 <= k < freq && k != cur ==> !FitsAt(pt, fmt, settings[k], w)
    {
      if freq != cur {
        err, fifoSize := AdjustFifoSize(pt, fmt, settings[freq], w);
        if err == 0 {
          return;
        }
      }
      freq := freq + 1;
    }
    err := -EINVAL;
  }

  /**
   * tc358746_adjust_timings, with the current link index `cur` and the
   * link settings as parameters.  Widths are tried from `width` down in
   * steps of 10 while positive; at each width the current setting is tried
   * first and then every other one in ascending order.  The first fit wins.
   * The result is the link index the C function returns, `widthOut` and
   * `fifoSize` are the values left in *width and *fifo_size.
   */
  method AdjustTimings(pt: ParallelTiming, fmt: MbusFmt, settings: seq<CsiParam>, cur: nat,
                       width: int, fifoIn: u16)
    returns (freq: int, widthOut: int, fifoSize: u16)
    requires cur < |settings| < TWO_31
    requires forall k :: 0 <= k < |settings| ==> SearchDefined(pt, fmt, settings[k])
    // Nothing is tried: the index is the current one and both out-values are untouched.
    ensures width <= 0 ==> freq == cur && widthOut == width && fifoSize == fifoIn
    // The width left behind is on the ladder, and every wider tried width fails everywhere.
    ensures width > 0 ==> -10 < widthOut <= width && (width - widthOut) % 10 == 0
    ensures forall v :: Tried(width, v) && v > widthOut ==> NoneFits(pt, fmt, settings, v)
    // A fit at the current setting: its index only at the first width.
    ensures widthOut > 0 && FitsAt(pt, fmt, settings[cur], widthOut) ==>
      freq == (if widthOut == width then cur else |settings|)
      && fifoSize == MinFifo(pt, fmt, settings[cur], widthOut)
    // Otherwise the least other index that fits.
    ensures widthOut > 0 && !FitsAt(pt, fmt, settings[cur], widthOut) ==>
      0 <= freq < |settings| && freq != cur
      && FitsAt(pt, fmt, settings[freq], widthOut)
      && (forall k :: 0 <= k < freq && k != cur ==> !FitsAt(pt, fmt, settings[k], widthOut))
      && fifoSize == MinFifo(pt, fmt, settings[freq], widthOut)
    // Exhaustion is not an error: the index is one past the last.
    ensures width > 0 && widthOut <= 0 ==> freq == |settings| && fifoSize == MAX_FIFO_SIZE
  {
    freq := cur;
    fifoSize := fifoIn;
    var w := width;
    while w > 0
      invariant w <= width && (width - w) % 10 == 0
      invariant width > 0 ==> w > -10
      invariant width <= 0 ==> w == width
      invariant forall v :: Tried(width, v) && v > w ==> NoneFits(pt, fmt, settings, v)
      invariant w == width ==> freq == cur && fifoSize == fifoIn
      invariant w < width ==> freq == |settings| && fifoSize == MAX_FIFO_SIZE
      decreases w
    {
      var err;
      err, fifoSize := AdjustFifoSize(pt, fmt, settings[cur], w);
      if err == 0 {
        widthOut := w;
        return;
      }
      err, freq, fifoSize := TryOtherSettings(pt, fmt, settings, cur, w);
      if err == 0 {
        widthOut := w;
        return;
      }
      NextRung(pt, fmt, settings, width, w);
      w := w - 10;
    }
    widthOut := w;
  }
}
