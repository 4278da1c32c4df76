/**
 * Clock arithmetic of the bridge's PLL: the pre-divider and PLL input clock
 * chosen from the reference clock at probe time (tc358746_probe_fw), the
 * frequency-range selection of each link setting, and the feedback divider
 * (tc358746_set_pll).
 */
module Pll {
  import opened U32

  const REFCLK_MIN: u32 := 6000000
  const REFCLK_MAX: u32 := 40000000
  const PLLINCLK_TARGET: u32 := 4000000
  const PLLINCLK_MIN: u32 := 4000000
  const PLLINCLK_MAX: u32 := 40000000

  /** Which check of the probe rejected the reference clock; each is reported
      to the caller as -EINVAL. */
  datatype PllError = RefClkOutOfRange | PreDivOutOfRange | PllInClkOutOfRange

  datatype PllProbe =
    | PllOk(prd: u8, pllinclkHz: u32)
    | PllErr(reason: PllError)

  /** pll_prediv = DIV_ROUND_CLOSEST(refclk, 4 MHz), stored in an unsigned char. */
  function PreDiv(refclk: u32): u8 {
    DivRoundClosest(refclk, PLLINCLK_TARGET) % TWO_8
  }

  /** The three checks of the probe, in their order. */
  function ProbePll(refclk: u32): (r: PllProbe)
    ensures r == PllErr(RefClkOutOfRange) <==> !(REFCLK_MIN <= refclk <= REFCLK_MAX)
    ensures r.PllOk? ==> r.prd == PreDiv(refclk) && 1 <= r.prd <= 16
    ensures r.PllOk? ==> r.pllinclkHz * r.prd <= refclk + r.prd / 2 < r.pllinclkHz * r.prd + r.prd
    ensures r.PllOk? ==> PLLINCLK_MIN <= r.pllinclkHz <= PLLINCLK_MAX
  {
    if refclk < REFCLK_MIN || refclk > REFCLK_MAX then PllErr(RefClkOutOfRange)
    else
      var prd := PreDiv(refclk);
      if prd < 1 || prd > 16 then PllErr(PreDivOutOfRange)
      else
        var pllinclk := DivRoundClosest(refclk, prd);
        AddExact(refclk, prd / 2);
        DivBounds(refclk + prd / 2, prd);
        if pllinclk < PLLINCLK_MIN || pllinclk > PLLINCLK_MAX then PllErr(PllInClkOutOfRange)
        else PllOk(prd, pllinclk)
  }

  /** On the accepted reference clocks the pre-divider is the nearest integer
      to refclk / 4 MHz and lies in [2, 10]; so the [1, 16] check never fires. */
  lemma PreDivInRange(refclk: u32)
    requires REFCLK_MIN <= refclk <= REFCLK_MAX
    ensures 2 <= PreDiv(refclk) <= 10
    ensures 4000000 * PreDiv(refclk) <= refclk + 2000000 < 4000000 * PreDiv(refclk) + 4000000
    ensures ProbePll(refclk) != PllErr(PreDivOutOfRange)
  {
    AddExact(refclk, 2000000);
    DivBounds(refclk + 2000000, 4000000);
  }

  /** The PLL input clock never exceeds 5 MHz, so only its lower bound can
      reject; it is accepted exactly when refclk / prd does not round below
      4 MHz. */
  lemma ProbeAcceptance(refclk: u32)
    requires REFCLK_MIN <= refclk <= REFCLK_MAX
    ensures var prd := PreDiv(refclk);
      ProbePll(refclk).PllOk? <==> refclk + prd / 2 >= 4000000 * prd
    ensures ProbePll(refclk).PllOk? ==> ProbePll(refclk).pllinclkHz <= 5000000
    ensures ProbePll(refclk).PllOk? || ProbePll(refclk) == PllErr(PllInClkOutOfRange)
  {
    PreDivInRange(refclk);
    var prd := PreDiv(refclk);
    AddExact(refclk, prd / 2);
    var p := DivRoundClosest(refclk, prd);
    DivBounds(refclk + prd / 2, prd);
    PllInClkBounds(refclk, prd, p);
  }

  lemma PllInClkBounds(refclk: nat, prd: nat, p: nat)
    requires 2 <= prd <= 10
    requires refclk + 2000000 < 4000000 * prd + 4000000
    requires p * prd <= refclk + prd / 2 < p * prd + prd
    ensures p >= 4000000 <==> refclk + prd / 2 >= 4000000 * prd
    ensures p <= 5000000
  {
    if p >= 4000000 {
      MulMono(4000000, p, prd);
    } else {
      MulMono(p + 1, 4000000, prd);
    }
    if p > 5000000 {
      MulMono(5000001, p, prd);
    }
  }

  /** A 24 MHz reference clock gives pre-divider 6 and exactly 4 MHz. */
  lemma ProbeAt24MHz()
    ensures ProbePll(24000000) == PllOk(6, 4000000)
  {
    assert PreDiv(24000000) == 6;
  }

  /** A 27 MHz reference clock gives pre-divider 7 and about 3.857 MHz, which
      the probe rejects. */
  lemma ProbeAt27MHz()
    ensures PreDiv(27000000) == 7
    ensures ProbePll(27000000) == PllErr(PllInClkOutOfRange)
  {
    assert DivRoundClosest(27000000, 7) == 3857143;
  }

  /** The frequency range of a link setting, chosen from the lane rate. */
  function SpeedRange(bps: u32): (r: u8)
    ensures r <= 3
    ensures r == 0 <==> bps > 500000000
    ensures r == 1 <==> 250000000 < bps <= 500000000
    ensures r == 2 <==> 125000000 < bps <= 250000000
    ensures r == 3 <==> bps <= 125000000
  {
    if bps > 500000000 then 0
    else if bps > 250000000 then 1
    else if bps > 125000000 then 2
    else 3
  }

  /** The range puts the PLL output bps * 2^range in the VCO band
      [500 MHz, 1 GHz] for every lane rate the table admits, and it is the
      only range that does so. */
  lemma SpeedRangeKeepsVcoInBand(bps: u32)
    requires 62500000 <= bps <= 1000000000
    ensures 500000000 <= bps * Pow2(SpeedRange(bps)) <= 1000000000
    ensures forall k: nat :: k <= 3 && 500000000 < bps * Pow2(k) <= 1000000000 ==> k == SpeedRange(bps)
  {
    assert Pow2(0) == 1 && Pow2(1) == 2 && Pow2(2) == 4 && Pow2(3) == 8;
  }

  /** pll_fbd = speed_per_lane / pllinclk_hz, stored in a u16, then shifted
      left by the range (in int) and stored back in the u16. */
  function FeedbackDivider(spl: u32, pllinclkHz: u32, frs: nat): u16
    requires pllinclkHz != 0
    requires frs < 16
  {
    ((Div(spl, pllinclkHz) % TWO_16) * Pow2(frs)) % TWO_16
  }

  /** With an accepted PLL input clock nothing is truncated, and the PLL then
      multiplies its input clock to within one input-clock step of
      bps * 2^range: pllinclk * fbd <= spl * 2^frs < pllinclk * (fbd + 2^frs). */
  lemma FeedbackDividerBracketsRate(spl: u32, pllinclkHz: u32)
    requires 62500000 <= spl <= 1000000000
    requires PLLINCLK_MIN <= pllinclkHz <= PLLINCLK_MAX
    ensures var frs := SpeedRange(spl); var fbd := FeedbackDivider(spl, pllinclkHz, frs);
      fbd == (spl / pllinclkHz) * Pow2(frs)
      && pllinclkHz * fbd <= spl * Pow2(frs) < pllinclkHz * (fbd + Pow2(frs))
  {
    var frs := SpeedRange(spl);
    var q := spl / pllinclkHz;
    DivAnti(spl, PLLINCLK_MIN, pllinclkHz);
    DivMono(spl, 1000000000, PLLINCLK_MIN);
    var m := Pow2(frs);
    Pow2UpTo3(frs);
    NoTruncation(q, m);
    DivBounds(spl, pllinclkHz);
    BracketScaled(q, pllinclkHz, spl, m);
  }

  lemma Pow2UpTo3(k: nat)
    requires k <= 3
    ensures 1 <= Pow2(k) <= 8
  {
    assert Pow2(0) == 1 && Pow2(1) == 2 && Pow2(2) == 4 && Pow2(3) == 8;
  }

  lemma NoTruncation(q: nat, m: nat)
    requires q <= 250 && m <= 8
    ensures q % TWO_16 == q && (q * m) % TWO_16 == q * m
  {
    MulMono(m, 8, q);
  }

  lemma BracketScaled(q: nat, d: nat, n: nat, m: nat)
    requires m >= 1
    requires q * d <= n < q * d + d
    ensures d * (q * m) <= n * m < d * (q * m + m)
  {
    MulMono(q * d, n, m);
    MulMono(n + 1, q * d + d, m);
    assert d * (q * m) == (q * d) * m;
    assert d * (q * m + m) == (q * d + d) * m;
    assert (n + 1) * m == n * m + m;
  }
}
