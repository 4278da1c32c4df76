/**
 * D-PHY timing synthesiser of the TC358746 parallel-to-CSI-2 bridge
 * (tc358746_calculate_csi_txtimings).
 *
 * From the per-lane bit rate `spl` the driver derives three periods (the HS
 * byte clock in ps, the lane bit in ps and HFCLK in ns), then ten counter
 * registers, each a ceiling division minus a fixed offset, and finally the
 * HS->LP->HS transition time used by the FIFO search.  The constants are the
 * driver's vendor-adjusted ones, not those of the MIPI D-PHY specification.
 */
module Dphy {
  import opened U32

  /** One candidate link setting (struct tc358746_csi_param). */
  datatype CsiParam = CsiParam(
    speedRange: u8,
    unitClkHz: u32,
    unitClkMul: u8,
    speedPerLane: u32,      // bit/s per lane
    laneNum: u16,
    isContinuousClk: bool,
    lineinitcnt: u32,
    lptxtimecnt: u32,
    twakeupcnt: u32,
    tclkPreparecnt: u32,
    tclkZerocnt: u32,
    tclkTrailcnt: u32,
    tclkPostcnt: u32,
    thsPreparecnt: u32,
    thsZerocnt: u32,
    thsTrailcnt: u32,
    csiHsLpHsPs: u32)

  /** The all-zero record that zero-filling allocation produces. */
  const ZeroParam: CsiParam :=
    CsiParam(0, 0, 0, 0, 0, false, 0, 0, 0, 0, 0, 0, 0, 0, 0, 0, 0)

  const LINEINIT_MIN_US: u32 := 110
  const TWAKEUP_MIN_US: u32 := 1200
  const LPTXTIME_MIN_NS: u32 := 55
  const TCLKZERO_MIN_NS: u32 := 305
  const TCLKTRAIL_MIN_NS: u32 := 65
  const TCLKPOST_MIN_NS: u32 := 65
  const THSZERO_MIN_NS: u32 := 150
  const THSTRAIL_MIN_NS: u32 := 65
  const THSPREPARE_MIN_NS: u32 := 45

  /** The highest HS byte clock the device supports, in Hz. */
  const MAX_HS_BYTE_CLOCK: u32 := 125000000

  /** HS byte clock `spl >> 3` in byte/s. */
  function HsClk(spl: u32): u32 {
    spl / 8
  }

  /** HFCLK = SYSCLK / 2, i.e. `hsclk >> 1`. */
  function HfClk(spl: u32): u32 {
    HsClk(spl) / 2
  }

  /** The byte-clock check that comes before every timing computation. */
  predicate ByteClockSupported(spl: u32) {
    HsClk(spl) <= MAX_HS_BYTE_CLOCK
  }

  /** The lane rates for which the timing computation is reached and divides by
      no zero: the byte-clock check passed, and `hsclk / 1000` is not zero. */
  predicate TxTimingsDefined(spl: u32) {
    spl >= 8000 && ByteClockSupported(spl)
  }

  /** The window of lane rates that the link-setting table admits. */
  predicate LaneRateInRange(bps: u32) {
    62500000 <= bps <= 1000000000
  }

  /** hsclk_p_ps = 1000000000 / (hsclk / 1000). */
  function HsClkPeriodPs(spl: u32): u32
    requires spl >= 8000
  {
    Div(1000000000, Div(HsClk(spl), 1000))
  }

  /** spl_p_ps = 1000000000 / (spl / 1000). */
  function SplPeriodPs(spl: u32): u32
    requires spl >= 1000
  {
    Div(1000000000, Div(spl, 1000))
  }

  /** hfclk_p_ns = DIV_ROUND_CLOSEST(1000000000, hfclk). */
  function HfClkPeriodNs(spl: u32): u32
    requires spl >= 16
  {
    DivRoundClosest(1000000000, HfClk(spl))
  }

  // ---------------------------------------------------------------------
  // The ten counters.
  // ---------------------------------------------------------------------

  function LineInitCnt(spl: u32): u32
    requires TxTimingsDefined(spl)
  {
    HfPeriodBounds(spl);
    DivRoundUp(LINEINIT_MIN_US * 1000, HfClkPeriodNs(spl))
  }

  /** Shared by lptxtimecnt and tclk_preparecnt. */
  function LptxTimeCnt(spl: u32): u32
    requires TxTimingsDefined(spl)
  {
    HsPeriodBounds(spl);
    Sub(DivRoundUp(LPTXTIME_MIN_NS * 1000, HsClkPeriodPs(spl)), 1)
  }

  function TclkZeroCnt(spl: u32): u32
    requires TxTimingsDefined(spl)
  {
    HsPeriodBounds(spl);
    var tmp := Sub(TCLKZERO_MIN_NS * 1000, Mul(3, SplPeriodPs(spl)));
    Sub(DivRoundUp(tmp, HsClkPeriodPs(spl)), 2)
  }

  function ThsPrepareCnt(spl: u32): u32
    requires TxTimingsDefined(spl)
  {
    HsPeriodBounds(spl);
    var tmp := Add(THSPREPARE_MIN_NS * 1000, Mul(4, SplPeriodPs(spl)));
    Sub(DivRoundUp(tmp, HsClkPeriodPs(spl)), 1)
  }

  /** The ceiling that ths_zerocnt is derived from. */
  function ThsZeroCeil(spl: u32): u32
    requires TxTimingsDefined(spl)
  {
    HsPeriodBounds(spl);
    DivRoundUp(Sub(THSZERO_MIN_NS * 1000, SplPeriodPs(spl)), HsClkPeriodPs(spl))
  }

  function ThsZeroCnt(spl: u32): u32
    requires TxTimingsDefined(spl)
  {
    var tmp := ThsZeroCeil(spl);
    if tmp < 11 then 0 else tmp - 11
  }

  /** The divisor of the wake-up ceiling: hsclk_p_ns * (lptxtimecnt + 1). */
  function TwakeupUnit(spl: u32): u32
    requires TxTimingsDefined(spl)
  {
    Mul(Div(HsClkPeriodPs(spl), 1000), Add(LptxTimeCnt(spl), 1))
  }

  function TwakeupCnt(spl: u32): u32
    requires TxTimingsDefined(spl)
  {
    TwakeupUnitBounds(spl);
    Sub(DivRoundUp(TWAKEUP_MIN_US * 1000, TwakeupUnit(spl)), 1)
  }

  /** The ceiling that ths_trailcnt is derived from. */
  function ThsTrailCeil(spl: u32): u32
    requires TxTimingsDefined(spl)
  {
    HsPeriodBounds(spl);
    DivRoundUp(Add(THSTRAIL_MIN_NS * 1000, Mul(15, SplPeriodPs(spl))), HsClkPeriodPs(spl))
  }

  /** Not clamped: the subtraction wraps when the ceiling is below 5. */
  function ThsTrailCnt(spl: u32): u32
    requires TxTimingsDefined(spl)
  {
    Sub(ThsTrailCeil(spl), 5)
  }

  /** The ceiling that tclk_trailcnt is derived from. */
  function TclkTrailCeil(spl: u32): u32
    requires TxTimingsDefined(spl)
  {
    HsPeriodBounds(spl);
    DivRoundUp(Add(TCLKTRAIL_MIN_NS * 1000, Mul(3, SplPeriodPs(spl))), HsClkPeriodPs(spl))
  }

  function TclkTrailCnt(spl: u32): u32
    requires TxTimingsDefined(spl)
  {
    var tmp := TclkTrailCeil(spl);
    if tmp < 5 then 0 else tmp - 5
  }

  function TclkPostCnt(spl: u32): u32
    requires TxTimingsDefined(spl)
  {
    HsPeriodBounds(spl);
    var tmp := Add(TCLKPOST_MIN_NS * 1000, Mul(49, SplPeriodPs(spl)));
    Sub(DivRoundUp(tmp, HsClkPeriodPs(spl)), 3)
  }

  // ---------------------------------------------------------------------
  // HS -> LP -> HS transition time, in ps.
  // ---------------------------------------------------------------------

  function LptxTimePs(spl: u32): u32
    requires TxTimingsDefined(spl)
  {
    Mul(Add(LptxTimeCnt(spl), 1), HsClkPeriodPs(spl))
  }

  function TclkPostPs(spl: u32): u32
    requires TxTimingsDefined(spl)
  {
    Add(Mul(Add(4, TclkPostCnt(spl)), HsClkPeriodPs(spl)), Mul(3, SplPeriodPs(spl)))
  }

  function TclkTrailPs(spl: u32): u32
    requires TxTimingsDefined(spl)
  {
    Sub(Mul(Add(5, TclkTrailCnt(spl)), HsClkPeriodPs(spl)), Mul(3, SplPeriodPs(spl)))
  }

  function TclkZeroPs(spl: u32): u32
    requires TxTimingsDefined(spl)
  {
    Add(Mul(Add(2, TclkZeroCnt(spl)), HsClkPeriodPs(spl)), Mul(3, SplPeriodPs(spl)))
  }

  function ThsTrailPs(spl: u32): u32
    requires TxTimingsDefined(spl)
  {
    Sub(Mul(Add(5, ThsTrailCnt(spl)), HsClkPeriodPs(spl)), Mul(11, SplPeriodPs(spl)))
  }

  function ThsZeroPs(spl: u32): u32
    requires TxTimingsDefined(spl)
  {
    var h := HsClkPeriodPs(spl);
    Add(Add(Mul(Add(7, ThsZeroCnt(spl)), h), Mul(4, h)), Mul(11, SplPeriodPs(spl)))
  }

  /** Sum of the non-continuous-clock terms before the final scaling by 3/2. */
  function GatedClockSum(spl: u32): u32
    requires TxTimingsDefined(spl)
  {
    var h := HsClkPeriodPs(spl);
    var tmp := Mul(4, LptxTimePs(spl));
    var tmp1 := Add(tmp, Add(Add(Add(Add(ThsTrailPs(spl), TclkPostPs(spl)), TclkTrailPs(spl)),
                                 TclkZeroPs(spl)), ThsZeroPs(spl)));
    var tmp2 := Add(tmp1, Mul(Add(13, Mul(LptxTimeCnt(spl), 8)), h));
    Add(tmp2, Mul(22, h))
  }

  function HsLpHsPs(spl: u32, continuous: bool): u32
    requires TxTimingsDefined(spl)
  {
    var h := HsClkPeriodPs(spl);
    if continuous then
      Add(Add(Add(Mul(2, LptxTimePs(spl)), Mul(25, h)), ThsTrailPs(spl)), ThsZeroPs(spl))
    else
      DivRoundClosest(Mul(GatedClockSum(spl), 3), 2)
  }

  /** Two records agree on the six link-setting fields. */
  predicate SameLinkFields(a: CsiParam, b: CsiParam) {
    a.speedRange == b.speedRange && a.unitClkHz == b.unitClkHz && a.unitClkMul == b.unitClkMul
    && a.speedPerLane == b.speedPerLane && a.laneNum == b.laneNum
    && a.isContinuousClk == b.isContinuousClk
  }

  /** Two records agree on the eleven fields the timing synthesiser writes. */
  predicate SameTimingFields(a: CsiParam, b: CsiParam) {
    a.lineinitcnt == b.lineinitcnt && a.lptxtimecnt == b.lptxtimecnt
    && a.twakeupcnt == b.twakeupcnt && a.tclkPreparecnt == b.tclkPreparecnt
    && a.tclkZerocnt == b.tclkZerocnt && a.tclkTrailcnt == b.tclkTrailcnt
    && a.tclkPostcnt == b.tclkPostcnt && a.thsPreparecnt == b.thsPreparecnt
    && a.thsZerocnt == b.thsZerocnt && a.thsTrailcnt == b.thsTrailcnt
    && a.csiHsLpHsPs == b.csiHsLpHsPs
  }

  /** The record after the synthesiser has written its eleven fields: the
      link-setting fields stay, the clock-prepare count is the LPTX count,
      and the turnaround follows the record's own clock mode. */
  function WithTxTimings(s: CsiParam): (r: CsiParam)
    requires TxTimingsDefined(s.speedPerLane)
    ensures SameLinkFields(r, s)
    ensures r.tclkPreparecnt == r.lptxtimecnt
    ensures r.csiHsLpHsPs == HsLpHsPs(s.speedPerLane, s.isContinuousClk)
  {
    var spl := s.speedPerLane;
    s.(lineinitcnt := LineInitCnt(spl),
       lptxtimecnt := LptxTimeCnt(spl),
       tclkPreparecnt := LptxTimeCnt(spl),
       tclkZerocnt := TclkZeroCnt(spl),
       thsPreparecnt := ThsPrepareCnt(spl),
       thsZerocnt := ThsZeroCnt(spl),
       twakeupcnt := TwakeupCnt(spl),
       thsTrailcnt := ThsTrailCnt(spl),
       tclkTrailcnt := TclkTrailCnt(spl),
       tclkPostcnt := TclkPostCnt(spl),
       csiHsLpHsPs := HsLpHsPs(spl, s.isContinuousClk))
  }

  /**
   * tc358746_calculate_csi_txtimings: fills the timing fields of
   * `settings[i]` in place, or fails without writing anything when the HS
   * byte clock exceeds 125 MHz.
   */
  method CalculateCsiTxTimings(settings: array<CsiParam>, i: nat) returns (err: int)
    requires i < settings.Length
    requires settings[i].speedPerLane >= 8000
    modifies settings
    ensures err == 0 <==> ByteClockSupported(old(settings[i].speedPerLane))
    ensures err == 0 || err == -EINVAL
    ensures err != 0 ==> settings[..] == old(settings[..])
    ensures err == 0 ==> settings[..] == old(settings[..])[i := WithTxTimings(old(settings[i]))]
    ensures err == 0 ==> settings[i].lptxtimecnt == settings[i].tclkPreparecnt
  {
    var s := settings[i];
    var spl := s.speedPerLane;
    var hsclk := spl / 8;
    if hsclk > MAX_HS_BYTE_CLOCK {
      return -EINVAL;
    }
    s := s.(lineinitcnt := LineInitCnt(spl));
    var lptx := LptxTimeCnt(spl);
    s := s.(lptxtimecnt := lptx, tclkPreparecnt := lptx);
    s := s.(tclkZerocnt := TclkZeroCnt(spl));
    s := s.(thsPreparecnt := ThsPrepareCnt(spl));
    s := s.(thsZerocnt := ThsZeroCnt(spl));
    s := s.(twakeupcnt := TwakeupCnt(spl));
    s := s.(thsTrailcnt := ThsTrailCnt(spl));
    s := s.(tclkTrailcnt := TclkTrailCnt(spl));
    s := s.(tclkPostcnt := TclkPostCnt(spl));
    s := s.(csiHsLpHsPs := HsLpHsPs(spl, s.isContinuousClk));
    settings[i] := s;
    err := 0;
  }

  // ---------------------------------------------------------------------
  // Bounds on the three periods.
  // ---------------------------------------------------------------------

  lemma HsPeriodBounds(spl: u32)
    requires TxTimingsDefined(spl)
    ensures 8000 <= HsClkPeriodPs(spl) <= 1000000000
  {
    var d := HsClk(spl) / 1000;
    assert 1 <= d <= 125000;
    DivAnti(1000000000, d, 125000);
    DivIsBelow(1000000000, d);
  }

  lemma HfPeriodBounds(spl: u32)
    requires TxTimingsDefined(spl)
    ensures 16 <= HfClkPeriodNs(spl) <= 2062500
  {
    var x := HfClk(spl);
    assert 500 <= x <= 62500000;
    assert Wrap(1000000000 + x / 2) == 1000000000 + x / 2;
    DivMono(1000000000, 1000000000 + x / 2, x);
    DivAnti(1000000000, x, 62500000);
    DivMono(1000000000 + x / 2, 1031250000, x);
    DivAnti(1031250000, 500, x);
  }

  lemma SplPeriodBounds(spl: u32)
    requires LaneRateInRange(spl)
    ensures 1000 <= SplPeriodPs(spl) <= 16000
  {
    var q := spl / 1000;
    assert 62500 <= q <= 1000000;
    DivAnti(1000000000, q, 1000000);
    DivAnti(1000000000, 62500, q);
  }

  lemma HsPeriodInRange(spl: u32)
    requires LaneRateInRange(spl)
    ensures 8000 <= HsClkPeriodPs(spl) <= 128008
  {
    var d := HsClk(spl) / 1000;
    assert 7812 <= d <= 125000;
    DivAnti(1000000000, d, 125000);
    DivAnti(1000000000, 7812, d);
  }

  /** The byte-clock period is eight lane-bit periods, up to the rounding of
      the two integer divisions. */
  lemma PeriodRatio(spl: u32)
    requires LaneRateInRange(spl)
    ensures 8 * SplPeriodPs(spl) <= HsClkPeriodPs(spl) <= 8 * SplPeriodPs(spl) + 22
  {
    var q := spl / 1000;
    var d := HsClk(spl) / 1000;
    assert 8 * d <= q <= 8 * d + 7;
    assert 7812 <= d;
    var h := HsClkPeriodPs(spl);
    var s := SplPeriodPs(spl);
    SplPeriodBounds(spl);
    DivBounds(1000000000, d);
    DivBounds(1000000000, q);
    RatioLower(h, d, s, q);
    RatioUpper(h, d, s, q);
  }

  lemma RatioLower(h: nat, d: nat, s: nat, q: nat)
    requires d > 0 && 8 * d <= q
    requires 1000000000 < h * d + d
    requires s * q <= 1000000000
    ensures 8 * s <= h
  {
    MulMono(8 * d, q, s);
    if h < 8 * s {
      MulMono(h + 1, 8 * s, d);
    }
  }

  lemma RatioUpper(h: nat, d: nat, s: nat, q: nat)
    requires 7812 <= d && q <= 8 * d + 7 && s <= 16000
    requires h * d <= 1000000000
    requires 1000000000 < s * q + q
    ensures h <= 8 * s + 22
  {
    MulMono(q, 8 * d + 7, s + 1);
    assert (s + 1) * (8 * d + 7) == (8 * s + 8) * d + 7 * (s + 1);
    assert 7 * (s + 1) < 15 * d;
    assert (8 * s + 8) * d + 15 * d == (8 * s + 23) * d;
    MulStrict(h, 8 * s + 23, d);
  }

  lemma LptxBounds(spl: u32)
    requires TxTimingsDefined(spl)
    ensures var c := DivRoundUp(LPTXTIME_MIN_NS * 1000, HsClkPeriodPs(spl));
      && 1 <= c <= 7
      && LptxTimeCnt(spl) == c - 1
      && c * HsClkPeriodPs(spl) >= 55000
      && c * HsClkPeriodPs(spl) < 55000 + HsClkPeriodPs(spl)
  {
    var h := HsClkPeriodPs(spl);
    HsPeriodBounds(spl);
    DivRoundUpIsCeil(55000, h);
    var c := DivRoundUp(55000, h);
    CeilBelow(c, h, 8000, 8, 55000);
    SubExact(c, 1);
  }

  lemma TwakeupUnitBounds(spl: u32)
    requires TxTimingsDefined(spl)
    ensures 8 <= TwakeupUnit(spl) <= 7000000
    ensures TwakeupUnit(spl) == (HsClkPeriodPs(spl) / 1000) * (LptxTimeCnt(spl) + 1)
  {
    HsPeriodBounds(spl);
    LptxBounds(spl);
    var a := Div(HsClkPeriodPs(spl), 1000);
    var b := LptxTimeCnt(spl) + 1;
    ProductBounds(a, b);
    AddExact(LptxTimeCnt(spl), 1);
    MulExact(a, b);
  }

  lemma ProductBounds(a: nat, b: nat)
    requires 8 <= a <= 1000000 && 1 <= b <= 7
    ensures 8 <= a * b <= 7000000
  {
    MulMono(a, 1000000, b);
    MulMono(b, 7, 1000000);
    MulMono(1, b, a);
  }

  /** A ceiling `c` with `c * h >= n` exceeds `k` when `k` periods of the
      largest possible length `hMax` stay below `n`. */
  lemma CeilExceeds(c: nat, h: nat, hMax: nat, k: nat, n: int)
    requires h <= hMax
    requires c * h >= n
    requires k * hMax < n
    ensures c > k
  {
    if c <= k {
      MulMono(c, k, h);
      MulMono(h, hMax, k);
    }
  }

  /** A ceiling `c` with `c * h < n + h` stays below `k` when `k - 1`
      periods of the smallest possible length `hMin` already reach `n`. */
  lemma CeilBelow(c: nat, h: nat, hMin: nat, k: nat, n: int)
    requires 1 <= k && hMin <= h
    requires c * h < n + h
    requires (k - 1) * hMin >= n
    ensures c < k
  {
    if c >= k {
      MulMono(k, c, h);
      MulMono(hMin, h, k - 1);
    }
  }

  // ---------------------------------------------------------------------
  // Each counter is the least count that meets its lower bound.
  // ---------------------------------------------------------------------

  /** lineinitcnt is the least n with n * hfclk_p_ns >= 110 us. */
  lemma LineInitIsLeast(spl: u32)
    requires TxTimingsDefined(spl)
    ensures var n, hf := LineInitCnt(spl), HfClkPeriodNs(spl);
      n * hf >= 110000 && (n - 1) * hf < 110000
  {
    HfPeriodBounds(spl);
    DivRoundUpIsCeil(110000, HfClkPeriodNs(spl));
  }

  /** lptxtimecnt + 1 is the least n with n * hsclk_p_ps >= 55 ns. */
  lemma LptxIsLeast(spl: u32)
    requires TxTimingsDefined(spl)
    ensures var n, h := LptxTimeCnt(spl), HsClkPeriodPs(spl);
      (n + 1) * h >= 55000 && n * h < 55000
  {
    LptxBounds(spl);
  }

  /** (twakeupcnt + 1) wake-up units of hsclk_p_ns * (lptxtimecnt + 1) reach
      1.2 ms, and one unit fewer does not. */
  lemma TwakeupMeetsMinimum(spl: u32)
    requires TxTimingsDefined(spl)
    ensures var n, hns, l := TwakeupCnt(spl), HsClkPeriodPs(spl) / 1000, LptxTimeCnt(spl);
      (n + 1) * (hns * (l + 1)) >= 1200000 && n * (hns * (l + 1)) < 1200000
  {
    TwakeupUnitBounds(spl);
    var u := TwakeupUnit(spl);
    DivRoundUpIsCeil(1200000, u);
    var c := DivRoundUp(1200000, u);
    SubExact(c, 1);
    var n := TwakeupCnt(spl);
    assert n + 1 == c;
    CeilFacts(n, c, u);
  }

  /** `(c - 1) * u` and `c * u` for the count `n = c - 1`, as two products of `n`. */
  lemma CeilFacts(n: nat, c: nat, u: nat)
    requires n + 1 == c
    ensures (n + 1) * u == c * u && n * u == c * u - u
  {
  }

  /** tclk_zerocnt is the least count whose clock-zero time
      (2 + n) * hsclk_p_ps + 3 * spl_p_ps reaches 305 ns. */
  lemma TclkZeroMeetsMinimum(spl: u32)
    requires LaneRateInRange(spl)
    ensures var n, h, s := TclkZeroCnt(spl), HsClkPeriodPs(spl), SplPeriodPs(spl);
      (n + 2) * h + 3 * s >= 305000 && (n + 1) * h + 3 * s < 305000
      && TclkZeroPs(spl) == (n + 2) * h + 3 * s
      && TclkZeroPs(spl) < 433008
  {
    var h, s := HsClkPeriodPs(spl), SplPeriodPs(spl);
    HsPeriodInRange(spl);
    SplPeriodBounds(spl);
    var m := 305000 - 3 * s;
    MulExact(3, s);
    SubExact(305000, 3 * s);
    DivRoundUpIsCeil(m, h);
    var c := DivRoundUp(m, h);
    CeilExceeds(c, h, 128008, 2, m);
    SubExact(c, 2);
    assert (c - 1) * h == c * h - h;
    AddExact(2, c - 2);
    MulExact(c, h);
    AddExact(c * h, 3 * s);
  }

  /** ths_preparecnt + 1 is the least n with n * hsclk_p_ps >= 45 ns + 4 * spl_p_ps. */
  lemma ThsPrepareMeetsMinimum(spl: u32)
    requires LaneRateInRange(spl)
    ensures var n, h, s := ThsPrepareCnt(spl), HsClkPeriodPs(spl), SplPeriodPs(spl);
      (n + 1) * h >= 45000 + 4 * s && n * h < 45000 + 4 * s
  {
    var h, s := HsClkPeriodPs(spl), SplPeriodPs(spl);
    HsPeriodInRange(spl);
    SplPeriodBounds(spl);
    var m := 45000 + 4 * s;
    MulExact(4, s);
    AddExact(45000, 4 * s);
    DivRoundUpIsCeil(m, h);
    var c := DivRoundUp(m, h);
    SubExact(c, 1);
    var n := ThsPrepareCnt(spl);
    assert n + 1 == c;
    CeilFacts(n, c, h);
  }

  /** ths_zerocnt is clamped at zero below a ceiling of 11; the resulting
      HS-zero time (11 + n) * hsclk_p_ps + 11 * spl_p_ps reaches
      150 ns + 10 * spl_p_ps in both cases. */
  lemma ThsZeroMeetsMinimum(spl: u32)
    requires LaneRateInRange(spl)
    ensures var c, n, h, s := ThsZeroCeil(spl), ThsZeroCnt(spl), HsClkPeriodPs(spl), SplPeriodPs(spl);
      c * h >= 150000 - s && (c - 1) * h < 150000 - s
      && (c < 11 ==> n == 0) && (c >= 11 ==> n == c - 11)
      && ThsZeroPs(spl) == (n + 11) * h + 11 * s
      && ThsZeroPs(spl) >= 150000 + 10 * s
      && ThsZeroPs(spl) < 1776000
  {
    var h, s := HsClkPeriodPs(spl), SplPeriodPs(spl);
    HsPeriodInRange(spl);
    SplPeriodBounds(spl);
    var m := 150000 - s;
    SubExact(150000, s);
    DivRoundUpIsCeil(m, h);
    var c := ThsZeroCeil(spl);
    var n := ThsZeroCnt(spl);
    ThsZeroArith(c, n, h, s);
    AddExact(7, n);
    MulExact(7 + n, h);
    MulExact(4, h);
    MulExact(11, s);
    AddExact((7 + n) * h, 4 * h);
    AddExact((n + 11) * h, 11 * s);
  }

  lemma ThsZeroArith(c: nat, n: nat, h: nat, s: nat)
    requires 8000 <= h <= 128008 && 1000 <= s <= 16000
    requires c * h >= 150000 - s && c * h < 150000 - s + h
    requires n == if c < 11 then 0 else c - 11
    ensures (c - 1) * h < 150000 - s
    ensures (n + 11) * h == (7 + n) * h + 4 * h
    ensures (n + 11) * h < 1600000
    ensures (n + 11) * h + 11 * s >= 150000 + 10 * s
  {
    assert (c - 1) * h == c * h - h;
    assert (n + 11) * h == (7 + n) * h + 4 * h;
    if c < 11 {
      MulMono(c, 11, h);
    }
  }

  /** ths_trailcnt is not clamped: it wraps below a ceiling of 5, and the
      wrap cancels in ths_trail_ps, which still reaches 65 ns + 4 * spl_p_ps. */
  lemma ThsTrailWrapCancels(spl: u32)
    requires LaneRateInRange(spl)
    ensures var c, n, h, s := ThsTrailCeil(spl), ThsTrailCnt(spl), HsClkPeriodPs(spl), SplPeriodPs(spl);
      c * h >= 65000 + 15 * s && (c - 1) * h < 65000 + 15 * s
      && (c < 5 <==> n >= TWO_32 - 5)
      && Add(n, 5) == c
      && ThsTrailPs(spl) == c * h - 11 * s
      && ThsTrailPs(spl) >= 65000 + 4 * s
      && ThsTrailPs(spl) < 500000
  {
    var h, s := HsClkPeriodPs(spl), SplPeriodPs(spl);
    HsPeriodInRange(spl);
    SplPeriodBounds(spl);
    var m := 65000 + 15 * s;
    MulExact(15, s);
    AddExact(65000, 15 * s);
    DivRoundUpIsCeil(m, h);
    var c := ThsTrailCeil(spl);
    var n := ThsTrailCnt(spl);
    ThsTrailArith(c, h, s);
    SubAddCancel(c, 5);
    MulExact(c, h);
    MulExact(11, s);
    SubExact(c * h, 11 * s);
  }

  lemma ThsTrailArith(c: nat, h: nat, s: nat)
    requires 8000 <= h <= 128008 && 1000 <= s <= 16000
    requires c * h >= 65000 + 15 * s && c * h < 65000 + 15 * s + h
    ensures (c - 1) * h < 65000 + 15 * s
    ensures c < 100 && c * h < 500000
  {
    assert (c - 1) * h == c * h - h;
    CeilBelow(c, h, 8000, 100, 65000 + 15 * s);
  }

  /** The upper limit that the comment above the ths_trail computation
      places on the HS-trail time holds on every admitted lane rate:
      60 ns + 4 * spl_p_ps < ths_trail_ps < 105 ns + 12 * spl_p_ps. */
  lemma ThsTrailWithinLimits(spl: u32)
    requires LaneRateInRange(spl)
    ensures var s := SplPeriodPs(spl);
      60000 + 4 * s < ThsTrailPs(spl) < 105000 + 12 * s
  {
    var c, h, s := ThsTrailCeil(spl), HsClkPeriodPs(spl), SplPeriodPs(spl);
    ThsTrailWrapCancels(spl);
    PeriodRatio(spl);
    assert (c - 1) * h == c * h - h;
  }

  /** At 250 Mbit/s the ths_trail ceiling is 4 and ths_trailcnt wraps to 2^32 - 1. */
  lemma ThsTrailWrapsAt250M()
    ensures ThsTrailCeil(250000000) == 4
    ensures ThsTrailCnt(250000000) == TWO_32 - 1
  {
    assert HsClkPeriodPs(250000000) == 32000;
    assert SplPeriodPs(250000000) == 4000;
  }

  /** tclk_trailcnt is clamped at zero below a ceiling of 5; the clock-trail
      time (5 + n) * hsclk_p_ps - 3 * spl_p_ps reaches 65 ns in both cases. */
  lemma TclkTrailMeetsMinimum(spl: u32)
    requires LaneRateInRange(spl)
    ensures var c, n, h, s := TclkTrailCeil(spl), TclkTrailCnt(spl), HsClkPeriodPs(spl), SplPeriodPs(spl);
      c * h >= 65000 + 3 * s && (c - 1) * h < 65000 + 3 * s
      && (c < 5 ==> n == 0) && (c >= 5 ==> n == c - 5)
      && TclkTrailPs(spl) == (n + 5) * h - 3 * s
      && TclkTrailPs(spl) >= 65000
      && TclkTrailPs(spl) < 1000000
  {
    var h, s := HsClkPeriodPs(spl), SplPeriodPs(spl);
    HsPeriodInRange(spl);
    SplPeriodBounds(spl);
    var m := 65000 + 3 * s;
    MulExact(3, s);
    AddExact(65000, 3 * s);
    DivRoundUpIsCeil(m, h);
    var c := TclkTrailCeil(spl);
    var n := TclkTrailCnt(spl);
    TclkTrailArith(c, n, h, s);
    AddExact(5, n);
    MulExact(n + 5, h);
    SubExact((n + 5) * h, 3 * s);
  }

  lemma TclkTrailArith(c: nat, n: nat, h: nat, s: nat)
    requires 8000 <= h <= 128008 && 1000 <= s <= 16000
    requires c * h >= 65000 + 3 * s && c * h < 65000 + 3 * s + h
    requires n == if c < 5 then 0 else c - 5
    ensures (c - 1) * h < 65000 + 3 * s
    ensures (n + 5) * h < 1000000
    ensures (n + 5) * h >= 65000 + 3 * s
  {
    assert (c - 1) * h == c * h - h;
    if c < 5 {
      MulMono(c, 5, h);
    }
  }

  /** tclk_postcnt is the least count with (3 + n) * hsclk_p_ps >=
      65 ns + 49 * spl_p_ps, so the clock-post time exceeds 65 ns + 52 * spl_p_ps. */
  lemma TclkPostMeetsMinimum(spl: u32)
    requires LaneRateInRange(spl)
    ensures var n, h, s := TclkPostCnt(spl), HsClkPeriodPs(spl), SplPeriodPs(spl);
      (n + 3) * h >= 65000 + 49 * s && (n + 2) * h < 65000 + 49 * s
      && TclkPostPs(spl) == (n + 4) * h + 3 * s
      && TclkPostPs(spl) > 65000 + 52 * s
      && TclkPostPs(spl) < 2100000
      && TclkPostPs(spl) >= 4 * h
  {
    var h, s := HsClkPeriodPs(spl), SplPeriodPs(spl);
    HsPeriodInRange(spl);
    SplPeriodBounds(spl);
    PeriodRatio(spl);
    var m := 65000 + 49 * s;
    MulExact(49, s);
    AddExact(65000, 49 * s);
    DivRoundUpIsCeil(m, h);
    var c := DivRoundUp(m, h);
    TclkPostArith(c, h, s);
    SubExact(c, 3);
    AddExact(4, c - 3);
    MulExact(c + 1, h);
    MulExact(3, s);
    AddExact((c + 1) * h, 3 * s);
  }

  lemma TclkPostArith(c: nat, h: nat, s: nat)
    requires 8000 <= h <= 128008 && 1000 <= s <= 16000 && h <= 8 * s + 22
    requires c * h >= 65000 + 49 * s && c * h < 65000 + 49 * s + h
    ensures c >= 3
    ensures (c - 1) * h < 65000 + 49 * s
    ensures (c + 1) * h == c * h + h && (c + 1) * h < 2000000
    ensures (c + 1) * h >= 4 * h
  {
    assert (c - 1) * h == c * h - h;
    assert (c + 1) * h == c * h + h;
    CeilExceeds(c, h, h, 2, 65000 + 49 * s);
    MulMono(4, c + 1, h);
  }

  // ---------------------------------------------------------------------
  // The HS -> LP -> HS transition time.
  // ---------------------------------------------------------------------

  lemma LptxTimeBounds(spl: u32)
    requires LaneRateInRange(spl)
    ensures LptxTimeCnt(spl) <= 6
    ensures 55000 <= LptxTimePs(spl) < 183008
  {
    var h := HsClkPeriodPs(spl);
    HsPeriodInRange(spl);
    LptxBounds(spl);
    var c := LptxTimeCnt(spl) + 1;
    AddExact(LptxTimeCnt(spl), 1);
    MulExact(c, h);
  }

  /** Range of every term of the transition time on the admitted lane rates;
      none of the sums below wraps. */
  lemma TransitionTermBounds(spl: u32)
    requires LaneRateInRange(spl)
    ensures HsClkPeriodPs(spl) <= 128008
    ensures 55000 <= LptxTimePs(spl) < 183008
    ensures ThsTrailPs(spl) < 500000
    ensures ThsZeroPs(spl) < 1776000
    ensures 4 * HsClkPeriodPs(spl) <= TclkPostPs(spl) < 2100000
    ensures TclkTrailPs(spl) < 1000000
    ensures TclkZeroPs(spl) < 433008
    ensures var h := HsClkPeriodPs(spl);
      13 * h <= Mul(Add(13, Mul(LptxTimeCnt(spl), 8)), h) <= 61 * h
  {
    HsPeriodInRange(spl);
    LptxTimeBounds(spl);
    ThsTrailWrapCancels(spl);
    ThsZeroMeetsMinimum(spl);
    TclkPostMeetsMinimum(spl);
    TclkTrailMeetsMinimum(spl);
    TclkZeroMeetsMinimum(spl);
    LptxScaledBounds(LptxTimeCnt(spl), HsClkPeriodPs(spl));
  }

  lemma LptxScaledBounds(l: u32, h: u32)
    requires l <= 6 && h <= 128008
    ensures 13 * h <= Mul(Add(13, Mul(l, 8)), h) <= 61 * h
  {
    MulExact(l, 8);
    AddExact(13, 8 * l);
    MulMono(13, 13 + 8 * l, h);
    MulMono(13 + 8 * l, 61, h);
    MulExact(13 + 8 * l, h);
  }

  /** The continuous-clock transition time, computed without wrap. */
  lemma ContinuousTransitionExact(spl: u32)
    requires LaneRateInRange(spl)
    ensures var h, lp := HsClkPeriodPs(spl), LptxTimePs(spl);
      HsLpHsPs(spl, true) == 2 * lp + 25 * h + ThsTrailPs(spl) + ThsZeroPs(spl)
  {
    TransitionTermBounds(spl);
    var h, lp := HsClkPeriodPs(spl), LptxTimePs(spl);
    MulExact(2, lp);
    MulExact(25, h);
    AddExact(2 * lp, 25 * h);
    AddExact(2 * lp + 25 * h, ThsTrailPs(spl));
    AddExact(2 * lp + 25 * h + ThsTrailPs(spl), ThsZeroPs(spl));
  }

  /** The gated-clock sum, computed without wrap. */
  lemma GatedClockSumExact(spl: u32)
    requires LaneRateInRange(spl)
    ensures var h, lp := HsClkPeriodPs(spl), LptxTimePs(spl);
      GatedClockSum(spl) == 4 * lp + ThsTrailPs(spl) + TclkPostPs(spl) + TclkTrailPs(spl)
        + TclkZeroPs(spl) + ThsZeroPs(spl) + Mul(Add(13, Mul(LptxTimeCnt(spl), 8)), h) + 22 * h
  {
    TransitionTermBounds(spl);
    var h, lp := HsClkPeriodPs(spl), LptxTimePs(spl);
    var tt, tp, ttr, tze, tz := ThsTrailPs(spl), TclkPostPs(spl), TclkTrailPs(spl), TclkZeroPs(spl), ThsZeroPs(spl);
    var x := Mul(Add(13, Mul(LptxTimeCnt(spl), 8)), h);
    MulExact(4, lp);
    AddExact(tt, tp);
    AddExact(tt + tp, ttr);
    AddExact(tt + tp + ttr, tze);
    AddExact(tt + tp + ttr + tze, tz);
    AddExact(4 * lp, tt + tp + ttr + tze + tz);
    AddExact(4 * lp + tt + tp + ttr + tze + tz, x);
    MulExact(22, h);
    AddExact(4 * lp + tt + tp + ttr + tze + tz + x, 22 * h);
  }

  /** With a continuous clock the transition is strictly shorter than with a
      gated clock, and neither formula overflows a signed 32-bit int on the
      admitted lane rates. */
  lemma ContinuousClockCheaper(spl: u32)
    requires LaneRateInRange(spl)
    ensures HsLpHsPs(spl, true) < HsLpHsPs(spl, false) < TWO_31
  {
    TransitionTermBounds(spl);
    ContinuousTransitionExact(spl);
    GatedClockSumExact(spl);
    var sum := GatedClockSum(spl);
    var cont := HsLpHsPs(spl, true);
    assert cont < sum < 0x1000_0000;
    MulExact(sum, 3);
    HalfUpBounds(3 * sum);
  }

  /** DIV_ROUND_CLOSEST(x, 2) without wrap: half of x, rounded up. */
  lemma HalfUpBounds(x: u32)
    requires x < 0x3000_0000
    ensures DivRoundClosest(x, 2) == (x + 1) / 2
  {
    AddExact(x, 1);
  }


  // ---------------------------------------------------------------------
  // Upper limits named in the driver's comments that the counters do not
  // meet on every admitted lane rate.
  // ---------------------------------------------------------------------

  /** At 150 Mbit/s the shared LPTX/clock-prepare count is 1, so the
      clock-prepare time (tclk_preparecnt + 1) * hsclk_p_ps is 106666 ps,
      above the 95 ns its comment allows. */
  lemma TclkPrepareAboveLimitAt150M(spl: u32)
    requires spl == 150000000
    ensures HsClkPeriodPs(spl) == 53333
    ensures LptxTimeCnt(spl) == 1
    ensures LptxTimePs(spl) == 106666 > 95000
  {
    assert Div(HsClk(spl), 1000) == 18750;
    var h := HsClkPeriodPs(spl);
    LptxIsLeast(spl);
    var n := LptxTimeCnt(spl);
    if n >= 2 {
      MulMono(2, n, h);
    }
    AddExact(1, 1);
    MulExact(2, h);
  }

  /** The window that the comment above the ths_prepare computation gives
      the HS-prepare time of count n:
      40 ns + 4 * spl_p_ps < (n + 1) * hsclk_p_ps < 85 ns + 6 * spl_p_ps. */
  predicate InThsPrepareWindow(spl: u32, n: nat)
    requires TxTimingsDefined(spl)
  {
    var h, s := HsClkPeriodPs(spl), SplPeriodPs(spl);
    40000 + 4 * s < (n + 1) * h < 85000 + 6 * s
  }

  /** At 100 Mbit/s the HS-prepare time (ths_preparecnt + 1) * hsclk_p_ps is
      160000 ps, above 85 ns + 6 * spl_p_ps = 145000 ps. */
  lemma ThsPrepareAboveLimitAt100M(spl: u32)
    requires spl == 100000000
    ensures HsClkPeriodPs(spl) == 80000 && SplPeriodPs(spl) == 10000
    ensures ThsPrepareCnt(spl) == 1
    ensures (ThsPrepareCnt(spl) + 1) * HsClkPeriodPs(spl) == 160000 > 85000 + 6 * SplPeriodPs(spl)
  {
    assert Div(HsClk(spl), 1000) == 12500;
    assert Div(spl, 1000) == 100000;
    var h := HsClkPeriodPs(spl);
    ThsPrepareMeetsMinimum(spl);
    var n := ThsPrepareCnt(spl);
    if n >= 2 {
      MulMono(2, n, h);
    }
  }

  /** No count meets the HS-prepare window of the comment at 100 Mbit/s: one
      byte period does not exceed its lower end 40 ns + 4 * spl_p_ps, and two
      periods pass its upper end. */
  lemma ThsPrepareWindowEmptyAt100M(spl: u32)
    requires spl == 100000000
    ensures forall n: nat :: !InThsPrepareWindow(spl, n)
  {
    ThsPrepareAboveLimitAt100M(spl);
    forall n: nat
      ensures !InThsPrepareWindow(spl, n)
    {
      if n >= 1 {
        MulMono(2, n + 1, 80000);
      }
    }
  }

  /** At 62.5 Mbit/s the clock-trail ceiling is 1, the count is clamped to 0,
      and the clock-trail time 5 * hsclk_p_ps - 3 * spl_p_ps is 592040 ps,
      above 105 ns + 12 * spl_p_ps = 297000 ps.  The clamp makes five byte
      periods the least clock-trail time of any count. */
  lemma TclkTrailAboveLimitAt62M5(spl: u32)
    requires spl == 62500000
    ensures HsClkPeriodPs(spl) == 128008 && SplPeriodPs(spl) == 16000
    ensures TclkTrailCeil(spl) == 1 && TclkTrailCnt(spl) == 0
    ensures TclkTrailPs(spl) == 592040 > 105000 + 12 * SplPeriodPs(spl)
  {
    assert Div(HsClk(spl), 1000) == 7812;
    assert Div(spl, 1000) == 62500;
    var h := HsClkPeriodPs(spl);
    TclkTrailMeetsMinimum(spl);
    var c := TclkTrailCeil(spl);
    if c >= 2 {
      MulMono(1, c - 1, h);
    }
  }

  /** The three periods at 432 Mbit/s per lane. */
  lemma PeriodsAt432M()
    ensures HsClkPeriodPs(432000000) == 18518 && SplPeriodPs(432000000) == 2314
    ensures HfClkPeriodNs(432000000) == 37
  {
    assert Div(HsClk(432000000), 1000) == 54000;
    assert Div(432000000, 1000) == 432000;
    assert HfClk(432000000) == 27000000;
  }

  /** The counters for the LP and HS-prepare phases at 432 Mbit/s per lane,
      pinned down by the least-count properties above. */
  lemma LpCountersAt432M()
    ensures LineInitCnt(432000000) == 2973
    ensures LptxTimeCnt(432000000) == 2
    ensures TclkZeroCnt(432000000) == 15
    ensures ThsPrepareCnt(432000000) == 2
  {
    var spl := 432000000;
    PeriodsAt432M();
    LineInitIsLeast(spl);
    LptxIsLeast(spl);
    TclkZeroMeetsMinimum(spl);
    ThsPrepareMeetsMinimum(spl);
  }

  /** The HS-zero and HS-trail counters at 432 Mbit/s per lane. */
  lemma ThsCountersAt432M()
    ensures ThsZeroCnt(432000000) == 0
    ensures ThsTrailCnt(432000000) == 1
  {
    PeriodsAt432M();
    ThsZeroMeetsMinimum(432000000);
    ThsTrailWrapCancels(432000000);
  }

  /** The clock-trail and clock-post counters at 432 Mbit/s per lane. */
  lemma TclkCountersAt432M()
    ensures TclkTrailCnt(432000000) == 0
    ensures TclkPostCnt(432000000) == 7
  {
    PeriodsAt432M();
    TclkTrailMeetsMinimum(432000000);
    TclkPostMeetsMinimum(432000000);
  }

  /** The wake-up counter at 432 Mbit/s: units of 18 ns * 3. */
  lemma TwakeupAt432M()
    ensures TwakeupUnit(432000000) == 54
    ensures TwakeupCnt(432000000) == 22222
  {
    PeriodsAt432M();
    LptxIsLeast(432000000);
    TwakeupUnitBounds(432000000);
    TwakeupMeetsMinimum(432000000);
  }

  /** The terms of the continuous-clock turnaround at 432 Mbit/s per lane. */
  lemma TurnaroundTermsAt432M(spl: u32)
    requires spl == 432000000
    ensures LptxTimePs(spl) == 55554
    ensures ThsTrailPs(spl) == 85654
    ensures ThsZeroPs(spl) == 229152
  {
    PeriodsAt432M();
    LpCountersAt432M();
    ThsCountersAt432M();
    var h, sp := HsClkPeriodPs(spl), SplPeriodPs(spl);
    MulExact(3, h);
    MulExact(6, h);
    MulExact(11, sp);
    SubExact(6 * h, 11 * sp);
    MulExact(7, h);
    MulExact(4, h);
    AddExact(7 * h, 4 * h);
    AddExact(11 * h, 11 * sp);
  }

  /** The continuous-clock turnaround at 432 Mbit/s per lane. */
  lemma ContinuousTurnaroundAt432M(spl: u32)
    requires spl == 432000000
    ensures HsLpHsPs(spl, true) == 888864
  {
    PeriodsAt432M();
    TurnaroundTermsAt432M(spl);
    ContinuousTransitionExact(spl);
  }
}
