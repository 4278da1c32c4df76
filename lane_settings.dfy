/**
 * Construction of the link-setting table (tc358746_set_lane_settings): one
 * record per link frequency of the firmware description, filled in place in
 * the arrays the probe allocated.
 */
module LaneSettings {
  import opened U32
  import opened Dphy
  import Pll

  /** bps_pr_lane = 2 * link_freq: doubled in u64 (the lane is double data
      rate), then stored in a u32.  Both truncations together are the
      reduction modulo 2^32. */
  function LaneRate(f: u64): u32 {
    Wrap(2 * f)
  }

  predicate RateAccepted(f: u64) {
    LaneRateInRange(LaneRate(f))
  }

  /** The position of the first link frequency whose lane rate is rejected,
      or the length when every rate is accepted. */
  function FirstRejected(fw: seq<u64>): (k: nat)
    ensures k <= |fw|
    ensures forall j :: 0 <= j < k ==> RateAccepted(fw[j])
    ensures k < |fw| ==> !RateAccepted(fw[k])
  {
    if |fw| == 0 then 0
    else if !RateAccepted(fw[0]) then 0
    else 1 + FirstRejected(fw[1..])
  }

  /** The first-rejected position is determined by the two properties above. */
  lemma FirstRejectedUnique(fw: seq<u64>, i: nat)
    requires i <= |fw|
    requires forall j :: 0 <= j < i ==> RateAccepted(fw[j])
    requires i < |fw| ==> !RateAccepted(fw[i])
    ensures FirstRejected(fw) == i
  {
  }

  /** The link-setting fields written for lane rate `bps`; the D-PHY timing
      fields are left as they were. */
  function LaneSetting(s: CsiParam, bps: u32, pllinclkHz: u32, lanes: u16, continuous: bool): CsiParam
    requires pllinclkHz >= 8
  {
    var sr := Pll.SpeedRange(bps);
    var unit := Shr(pllinclkHz, sr);
    UnitClockPositive(pllinclkHz, sr);
    s.(speedRange := sr,
       unitClkHz := unit,
       unitClkMul := Div(bps, unit) % TWO_8,
       speedPerLane := bps,
       laneNum := lanes,
       isContinuousClk := continuous)
  }

  /** A link setting keeps the eleven timing fields of the record it
      rewrites, and carries the rate, lane count and clock mode it is given,
      the speed range of that rate and a nonzero unit clock. */
  lemma LaneSettingFields(s: CsiParam, bps: u32, pllinclkHz: u32, lanes: u16, continuous: bool)
    requires pllinclkHz >= 8
    ensures var r := LaneSetting(s, bps, pllinclkHz, lanes, continuous);
      && SameTimingFields(r, s)
      && r.speedPerLane == bps && r.laneNum == lanes && r.isContinuousClk == continuous
      && r.speedRange == Pll.SpeedRange(bps) && r.unitClkHz >= 1
  {
    UnitClockPositive(pllinclkHz, Pll.SpeedRange(bps));
  }

  lemma UnitClockPositive(pllinclkHz: u32, sr: nat)
    requires pllinclkHz >= 8 && sr <= 3
    ensures Shr(pllinclkHz, sr) >= 1
  {
    assert Pow2(0) == 1 && Pow2(1) == 2 && Pow2(2) == 4 && Pow2(3) == 8;
    DivMono(8, pllinclkHz, Pow2(sr));
  }

  /** For an accepted PLL input clock of at least 4 MHz the unit clock is
      pllinclk / 2^range, and the multiplier bps / unit_clk fits the unsigned
      char it is stored in (at most 250), so it is not truncated. */
  lemma UnitClockMultiplier(s: CsiParam, bps: u32, pllinclkHz: u32, lanes: u16, continuous: bool)
    requires LaneRateInRange(bps)
    requires pllinclkHz >= Pll.PLLINCLK_MIN
    ensures var r := LaneSetting(s, bps, pllinclkHz, lanes, continuous);
      r.unitClkHz == pllinclkHz / Pow2(r.speedRange) >= 500000
      && r.unitClkMul == bps / r.unitClkHz <= 250
  {
    var sr := Pll.SpeedRange(bps);
    var m := Pow2(sr);
    assert Pow2(0) == 1 && Pow2(1) == 2 && Pow2(2) == 4 && Pow2(3) == 8;
    var unit := pllinclkHz / m;
    DivMono(4000000, pllinclkHz, m);
    assert unit >= 4000000 / m;
    assert bps <= 125000000 * (8 / m);
    MultiplierBound(bps, unit, m);
  }

  lemma MultiplierBound(bps: nat, unit: nat, m: nat)
    requires m == 1 || m == 2 || m == 4 || m == 8
    requires unit >= 4000000 / m
    requires bps <= 125000000 * (8 / m)
    ensures unit >= 500000 && bps / unit <= 250
  {
    DivAnti(bps, 4000000 / m, unit);
    DivMono(bps, 125000000 * (8 / m), 4000000 / m);
  }

  /**
   * The loop of tc358746_set_lane_settings over the two tables.  Entry i of
   * both is written for each link frequency in turn, the link frequency
   * before its lane rate is checked; the loop stops at the first rejected
   * rate, whose index (or the length) it returns.
   */
  method FillLinkTables(settings: array<CsiParam>, freqs: array<u64>, fw: seq<u64>,
                        pllinclkHz: u32, lanes: u16, continuous: bool) returns (k: nat)
    requires pllinclkHz >= 8
    requires |fw| <= settings.Length && |fw| <= freqs.Length
    modifies settings, freqs
    ensures k == FirstRejected(fw)
    ensures forall j :: 0 <= j < k ==>
      settings[j] == LaneSetting(old(settings[j]), LaneRate(fw[j]), pllinclkHz, lanes, continuous)
    ensures forall j :: k <= j < settings.Length ==> settings[j] == old(settings[j])
    ensures forall j :: 0 <= j <= k && j < |fw| ==> freqs[j] == fw[j]
    ensures forall j :: k < j < freqs.Length || |fw| <= j < freqs.Length ==> freqs[j] == old(freqs[j])
  {
    k := 0;
    while k < |fw|
      invariant 0 <= k <= |fw|
      invariant forall j :: 0 <= j < k ==> RateAccepted(fw[j])
      invariant forall j :: 0 <= j < k ==>
        settings[j] == LaneSetting(old(settings[j]), LaneRate(fw[j]), pllinclkHz, lanes, continuous)
      invariant forall j :: k <= j < settings.Length ==> settings[j] == old(settings[j])
      invariant forall j :: 0 <= j < k ==> freqs[j] == fw[j]
      invariant forall j :: k <= j < freqs.Length ==> freqs[j] == old(freqs[j])
    {
      freqs[k] := fw[k];
      var bps := LaneRate(fw[k]);
      if bps < 62500000 || bps > 1000000000 {
        FirstRejectedUnique(fw, k);
        return;
      }
      settings[k] := LaneSetting(settings[k], bps, pllinclkHz, lanes, continuous);
      k := k + 1;
    }
    FirstRejectedUnique(fw, |fw|);
  }

  /**
   * The driver state the table construction works on: the PLL input clock
   * from the probe, the two tables the probe allocated, and the count of
   * valid entries.
   */
  class Tc358746 {
    var pllinclkHz: u32
    var linkFreqSettings: array<CsiParam>
    var linkFrequencies: array<u64>
    var linkFrequenciesNum: u32

    /** The state after the probe has chosen the PLL input clock and
        allocated zero-filled tables of `n` entries. */
    constructor (pllinclkHz: u32, n: nat)
      ensures this.pllinclkHz == pllinclkHz
      ensures fresh(linkFreqSettings) && fresh(linkFrequencies)
      ensures linkFreqSettings[..] == seq(n, _ => ZeroParam)
      ensures linkFrequencies[..] == seq(n, _ => 0)
      ensures linkFrequenciesNum == 0
    {
      this.pllinclkHz := pllinclkHz;
      linkFreqSettings := new CsiParam[n](_ => ZeroParam);
      linkFrequencies := new u64[n](_ => 0);
      linkFrequenciesNum := 0;
    }

    /**
     * tc358746_set_lane_settings: fills both tables (FillLinkTables).  A
     * rejected rate fails with -EINVAL, keeping the entries already written
     * and the old count; otherwise the count becomes the number of link
     * frequencies.
     */
    method SetLaneSettings(fw: seq<u64>, lanes: u16, continuous: bool) returns (err: int)
      requires pllinclkHz >= 8
      requires |fw| <= linkFreqSettings.Length && |fw| <= linkFrequencies.Length
      requires |fw| < TWO_32
      modifies this, linkFreqSettings, linkFrequencies
      ensures pllinclkHz == old(pllinclkHz)
      ensures linkFreqSettings == old(linkFreqSettings) && linkFrequencies == old(linkFrequencies)
      ensures err == 0 <==> FirstRejected(fw) == |fw|
      ensures err == 0 <==> forall j :: 0 <= j < |fw| ==> RateAccepted(fw[j])
      ensures err == 0 || err == -EINVAL
      ensures linkFrequenciesNum == if err == 0 then |fw| else old(linkFrequenciesNum)
      ensures forall j :: 0 <= j < linkFreqSettings.Length ==>
        linkFreqSettings[j] == if j < FirstRejected(fw)
          then LaneSetting(old(linkFreqSettings[j]), LaneRate(fw[j]), pllinclkHz, lanes, continuous)
          else old(linkFreqSettings[j])
      ensures forall j :: 0 <= j < linkFrequencies.Length ==>
        linkFrequencies[j] == if j <= FirstRejected(fw) && j < |fw| then fw[j] else old(linkFrequencies[j])
      ensures err == 0 ==> forall j :: 0 <= j < |fw| ==>
        linkFreqSettings[j].speedPerLane == LaneRate(fw[j]) && TxTimingsDefined(linkFreqSettings[j].speedPerLane)
    {
      var k := FillLinkTables(linkFreqSettings, linkFrequencies, fw, pllinclkHz, lanes, continuous);
      if k < |fw| {
        return -EINVAL;
      }
      forall j | 0 <= j < |fw|
        ensures linkFreqSettings[j].speedPerLane == LaneRate(fw[j])
      {
        LaneSettingFields(old(linkFreqSettings[j]), LaneRate(fw[j]), pllinclkHz, lanes, continuous);
      }
      linkFrequenciesNum := |fw|;
      err := 0;
    }
  }
}
