# TC358746 parallel-to-CSI-2 bridge: verified model of the driver's arithmetic

The Toshiba TC358746 takes a parallel video bus and sends it out as MIPI
CSI-2 over one to four D-PHY lanes. Its Linux driver (`tc358746.c`) does
the following with integer arithmetic:

- It derives the D-PHY counters and the HS-LP-HS turnaround time of each
  link frequency.
- It picks a FIFO depth that lets the parallel input and the CSI-2 output
  keep pace, falling back to other link frequencies and narrower lines when
  none fits.
- It builds the table of link settings from the firmware's link
  frequencies.
- It derives the PLL pre-divider, input clock and feedback divider.
- It looks up the supported media-bus formats.
- It lays out register values on the I2C bus.

This project models that core in Dafny and proves what each step computes.

Modules:

* `U32` (`u32.dfy`) is the unsigned arithmetic of C.
  - `unsigned int` values wrap modulo 2^32. The driver's formulas are built
    from `Add`, `Sub`, `Mul` and `Div` in the same order as in C.
  - It also has the kernel rounding macros, the `(int) x > 0` test on an
    unsigned value, and the error convention (0 or `-EINVAL`).
* `Dphy` (`dphy.dfy`) is the record of one link setting (`CsiParam`) and
  the D-PHY timing synthesiser.
  - Every counter is a function of the lane rate.
  - `CalculateCsiTxTimings` fills one entry of the settings array in place.
  - The lemmas state, for each counter, the least-count or clamp property it
    meets against the driver's minimum times, and compare the two
    turnaround formulas.
* `Formats` (`formats.dfy`) is the constant format table and its lookups.
* `Pll` (`pll.dfy`) is the probe-time pre-divider and PLL input clock, the
  frequency range and the feedback divider.
* `LaneSettings` (`lane_settings.dfy`) holds the class `Tc358746`. It carries
  the driver state that the link-setting table construction updates.
* `FifoSolver` (`fifo_solver.dfy`) is the FIFO-depth search and the fallback
  over link settings and widths.
* `RegLayout` (`reg_layout.dfy`) is the byte layout of the I2C payload and
  the register-size map.

Inputs that come from the hardware or the media framework are parameters:

| input | where it comes from |
|---|---|
| reference clock rate | `clk_get_rate` |
| pixel clock, horizontal blanking, current link index | the sensor's controls |
| link frequencies, lane count, clock mode | the firmware node |
| received I2C bytes | the bus |

## Model

| member | source | states |
|---|---|---|
| Dphy.CalculateCsiTxTimings | tc358746.c:418-608 | Fails with -EINVAL exactly when the HS byte clock spl/8 exceeds 125 MHz, and then leaves the settings array untouched. On success only entry i changes, its timing fields become the synthesised ones, and lptxtimecnt equals tclk_preparecnt. |
| Dphy.WithTxTimings | tc358746.c:450-605 | The written record keeps the six link-setting fields, has tclk_preparecnt equal to lptxtimecnt, and carries the turnaround of its own clock mode. |
| Dphy.HsClkPeriodPs | tc358746.c:441 | hsclk_p_ps, 10^9 over (spl/8)/1000 in u32. Its range is stated by Dphy.HsPeriodBounds and Dphy.HsPeriodInRange. |
| Dphy.SplPeriodPs | tc358746.c:442 | spl_p_ps, 10^9 over spl/1000. Its range is stated by Dphy.SplPeriodBounds and its ratio to hsclk_p_ps by Dphy.PeriodRatio. |
| Dphy.HfClkPeriodNs | tc358746.c:440 | hfclk_p_ns, 10^9 over spl/16 rounded to nearest. Its range is stated by Dphy.HfPeriodBounds. |
| Dphy.LineInitCnt | tc358746.c:450-451 | lineinitcnt. Dphy.LineInitIsLeast proves it the least count reaching 110 us. |
| Dphy.LptxTimeCnt | tc358746.c:458-459 | The value shared by lptxtimecnt and tclk_preparecnt. Dphy.LptxIsLeast and Dphy.LptxBounds state its properties. |
| Dphy.TclkZeroCnt | tc358746.c:473-475 | tclk_zerocnt, with the -2 offset and its u32 wrap. Dphy.TclkZeroMeetsMinimum states its properties. |
| Dphy.ThsPrepareCnt | tc358746.c:482-484 | ths_preparecnt. Dphy.ThsPrepareMeetsMinimum states its properties. |
| Dphy.ThsZeroCeil | tc358746.c:500-501 | The ceiling of 150 ns - spl_p_ps over hsclk_p_ps. Dphy.ThsZeroMeetsMinimum states its properties. |
| Dphy.ThsZeroCnt | tc358746.c:502 | ths_zerocnt, the ceiling clamped at 11. Dphy.ThsZeroMeetsMinimum states its properties. |
| Dphy.TwakeupUnit | tc358746.c:511-514 | The wake-up divisor hsclk_p_ns * (lptxtimecnt + 1) in u32. Dphy.TwakeupUnitBounds states its properties. |
| Dphy.TwakeupCnt | tc358746.c:512-514 | twakeupcnt. Dphy.TwakeupMeetsMinimum states its properties. |
| Dphy.ThsTrailCeil | tc358746.c:528-529 | The ceiling of 65 ns + 15 spl_p_ps over hsclk_p_ps. Dphy.ThsTrailWrapCancels states its properties. |
| Dphy.ThsTrailCnt | tc358746.c:530 | ths_trailcnt, the ceiling minus 5 without a clamp. Dphy.ThsTrailWrapCancels and Dphy.ThsTrailWrapsAt250M state its properties. |
| Dphy.TclkTrailCeil | tc358746.c:547-548 | The ceiling of 65 ns + 3 spl_p_ps over hsclk_p_ps. Dphy.TclkTrailMeetsMinimum states its properties. |
| Dphy.TclkTrailCnt | tc358746.c:549 | tclk_trailcnt, the ceiling clamped at 5. Dphy.TclkTrailMeetsMinimum states its properties. |
| Dphy.TclkPostCnt | tc358746.c:568-570 | tclk_postcnt. Dphy.TclkPostMeetsMinimum states its properties. |
| Dphy.LptxTimePs | tc358746.c:578 | lptxtime_ps. Dphy.LptxTimeBounds states its range. |
| Dphy.TclkPostPs | tc358746.c:579-580 | tclk_post_ps. Dphy.TclkPostMeetsMinimum gives its exact value. |
| Dphy.TclkTrailPs | tc358746.c:581-582 | tclk_trail_ps. Dphy.TclkTrailMeetsMinimum gives its exact value. |
| Dphy.TclkZeroPs | tc358746.c:583-584 | tclk_zero_ps. Dphy.TclkZeroMeetsMinimum gives its exact value. |
| Dphy.ThsTrailPs | tc358746.c:585-586 | ths_trail_ps. Dphy.ThsTrailWrapCancels gives its exact value. |
| Dphy.ThsZeroPs | tc358746.c:587-589 | ths_zero_ps. Dphy.ThsZeroMeetsMinimum gives its exact value. |
| Dphy.GatedClockSum | tc358746.c:597-601 | The non-continuous sum before the scaling by 3/2. Dphy.GatedClockSumExact states it without a wrap. |
| Dphy.HsLpHsPs | tc358746.c:591-605 | csi_hs_lp_hs_ps for either clock mode. Dphy.ContinuousTransitionExact and Dphy.ContinuousClockCheaper state its properties. |
| Dphy.HsPeriodBounds | tc358746.c:431-441 | Whenever the synthesiser runs, the byte-clock period lies in [8000, 10^9] ps. |
| Dphy.HfPeriodBounds | tc358746.c:432-440 | Whenever the synthesiser runs, the HFCLK period lies in [16, 2062500] ns. |
| Dphy.SplPeriodBounds | tc358746.c:442 | For a lane rate in [62.5 Mbit/s, 1 Gbit/s] the bit period lies in [1000, 16000] ps. |
| Dphy.HsPeriodInRange | tc358746.c:431-441 | For a supported lane rate the byte-clock period lies in [8000, 128008] ps. |
| Dphy.PeriodRatio | tc358746.c:441-442 | The byte-clock period is eight bit periods, up to the 22 ps that the two truncating divisions can add. |
| Dphy.LptxBounds | tc358746.c:458-459 | The LPTX ceiling is between 1 and 7, so the count does not wrap. |
| Dphy.LineInitIsLeast | tc358746.c:450-451 | lineinitcnt is the least n with n * hfclk_p_ns >= 110 us. |
| Dphy.LptxIsLeast | tc358746.c:458-459 | lptxtimecnt + 1 is the least n with n * hsclk_p_ps >= 55 ns. |
| Dphy.TwakeupUnitBounds | tc358746.c:511-514 | The wake-up divisor (hsclk_p_ps/1000) * (lptxtimecnt+1) lies in [8, 7000000] and is formed without a wrap. |
| Dphy.TwakeupMeetsMinimum | tc358746.c:511-514 | (twakeupcnt+1) wake-up units reach 1.2 ms, and twakeupcnt units do not. |
| Dphy.TclkZeroMeetsMinimum | tc358746.c:473-475 | (n+2) byte periods plus 3 bit periods reach 305 ns and (n+1) do not. The resulting tclk_zero_ps (line 583) equals that exact sum and stays below 433008 ps. |
| Dphy.ThsPrepareMeetsMinimum | tc358746.c:482-484 | ths_preparecnt + 1 is the least multiple of the byte period reaching 45 ns + 4 bit periods. |
| Dphy.ThsZeroMeetsMinimum | tc358746.c:500-502 | The count is 0 when the ceiling is below 11 and ceiling - 11 otherwise. ths_zero_ps (line 587) then covers 150 ns + 10 bit periods and stays below 1776000 ps. |
| Dphy.ThsTrailWrapCancels | tc358746.c:528-530 | ths_trailcnt is ceiling - 5 modulo 2^32. It wraps exactly when the ceiling is below 5, and adding 5 back in ths_trail_ps (line 585) undoes the wrap. ths_trail_ps = ceiling * h - 11 bit periods >= 65 ns + 4 bit periods. |
| Dphy.ThsTrailWrapsAt250M | tc358746.c:528-530 | At 250 Mbit/s the ceiling is 4, so ths_trailcnt wraps to 2^32 - 1. |
| Dphy.ThsTrailWithinLimits | tc358746.c:516-530 | On every accepted lane rate 60 ns + 4 spl_p_ps < ths_trail_ps < 105 ns + 12 spl_p_ps, both limits of the comment. |
| Dphy.TclkPrepareAboveLimitAt150M | tc358746.c:453-459 | At 150 Mbit/s the shared count is 1 and (tclk_preparecnt + 1) * hsclk_p_ps is 106666 ps, above the 95 ns of the comment. |
| Dphy.ThsPrepareAboveLimitAt100M | tc358746.c:477-484 | At 100 Mbit/s (ths_preparecnt + 1) * hsclk_p_ps is 160000 ps, above 85 ns + 6 spl_p_ps = 145000 ps. |
| Dphy.ThsPrepareWindowEmptyAt100M | tc358746.c:477-481 | At 100 Mbit/s no count n has 40 ns + 4 spl_p_ps < (n + 1) * hsclk_p_ps < 85 ns + 6 spl_p_ps. |
| Dphy.TclkTrailAboveLimitAt62M5 | tc358746.c:532-549 | At 62.5 Mbit/s the count is clamped to 0 and tclk_trail_ps is 592040 ps, above 105 ns + 12 spl_p_ps = 297000 ps. |
| Dphy.TclkTrailMeetsMinimum | tc358746.c:547-549 | The count is clamped at 0 below a ceiling of 5. tclk_trail_ps (line 581) = (n+5) h - 3 bit periods >= 65 ns and < 1 us. |
| Dphy.TclkPostMeetsMinimum | tc358746.c:568-570 | (n+3) byte periods reach 65 ns + 49 bit periods and (n+2) do not. tclk_post_ps (line 579) is the exact (n+4) h + 3 s, above 65 ns + 52 bit periods. |
| Dphy.LptxTimeBounds | tc358746.c:578 | lptxtimecnt <= 6, and lptxtime_ps lies in [55 ns, 183008 ps). |
| Dphy.TransitionTermBounds | tc358746.c:578-589 | Bounds every term of the turnaround sums, so neither formula wraps. |
| Dphy.LptxScaledBounds | tc358746.c:600 | (13 + 8 lptxtimecnt) * hsclk_p_ps lies between 13 and 61 byte periods. |
| Dphy.ContinuousTransitionExact | tc358746.c:591-595 | The continuous-clock turnaround is the exact integer sum 2 lptx + 25 h + ths_trail + ths_zero. |
| Dphy.GatedClockSumExact | tc358746.c:597-601 | The non-continuous sum is the exact integer sum of its terms. |
| Dphy.ContinuousClockCheaper | tc358746.c:591-605 | The continuous-clock turnaround is shorter than the non-continuous one, and both fit in a signed int. |
| Dphy.HalfUpBounds | tc358746.c:602-603 | DIV_ROUND_CLOSEST(x, 2) is (x+1)/2 while no wrap occurs. |
| Dphy.PeriodsAt432M | tc358746.c:430-442 | At 432 Mbit/s the periods are 18518 ps, 2314 ps and 37 ns. |
| Dphy.LpCountersAt432M | tc358746.c:450-484 | At 432 Mbit/s: lineinitcnt 2973, lptxtimecnt 2, tclk_zerocnt 15, ths_preparecnt 2. |
| Dphy.ThsCountersAt432M | tc358746.c:500-530 | At 432 Mbit/s: ths_zerocnt 0, ths_trailcnt 1. |
| Dphy.TclkCountersAt432M | tc358746.c:547-570 | At 432 Mbit/s: tclk_trailcnt 0, tclk_postcnt 7. |
| Dphy.TwakeupAt432M | tc358746.c:511-514 | At 432 Mbit/s: wake-up unit 54, twakeupcnt 22222. |
| Dphy.TurnaroundTermsAt432M | tc358746.c:578-589 | At 432 Mbit/s: lptxtime_ps 55554, ths_trail_ps 85654, ths_zero_ps 229152. |
| Dphy.ContinuousTurnaroundAt432M | tc358746.c:591-595 | At 432 Mbit/s with a continuous clock, csi_hs_lp_hs_ps is 888864. |
| Formats.TableEntriesUsable | tc358746.c:174-213 | Every table entry has a nonzero bus width, bits per pixel and pixel clocks per pixel, and a pixel fits in its bus cycles. |
| Formats.CodesDistinct | tc358746.c:174-213 | No media-bus code appears twice in the table. |
| Formats.FindFrom | tc358746.c:282-286 | The scan from index i returns the first matching index, or none when no later entry matches. |
| Formats.GetFormat | tc358746.c:278-287 | Returns an entry exactly when the code is in the table, and that entry carries the code. |
| Formats.FormatSupported | tc358746.c:259-268 | Returns 0 exactly when the code is in the table, else -EINVAL. |
| Formats.SupportedIffFound | tc358746.c:259-287 | The two lookups agree. |
| Formats.EnumMbusCode | tc358746.c:1216-1219 | Index i < 5 gives the i-th table code, any other index gives -EINVAL. |
| Formats.EnumThenGetFormat | tc358746.c:1216-1219 | Looking up an enumerated code gives back that table entry. |
| Formats.SupportedCodesEnumerated | tc358746.c:1216-1219 | Every supported code is enumerated at some index. |
| Formats.BytesPerLineRoundsDown | tc358746.c:1045-1046 | Without a wrap, bytes per line is width * bpp / 8 rounded down. It is exact when bpp is a multiple of 8. |
| Formats.BytesPerLine | tc358746.c:1045-1046 | byte_per_line in u32. Formats.BytesPerLineRoundsDown states its value. |
| Pll.ProbePll | tc358746.c:1619-1641 | Rejects a refclk outside [6 MHz, 40 MHz]. On success prd is DIV_ROUND_CLOSEST(refclk, 4 MHz) in [1, 16], pllinclk is refclk/prd rounded to nearest, and pllinclk lies in [4 MHz, 40 MHz]. |
| Pll.PreDivInRange | tc358746.c:1629-1633 | For refclk in [6 MHz, 40 MHz] the pre-divider is in [2, 10] and is the nearest integer to refclk/4 MHz, so the [1, 16] check never fires. |
| Pll.PreDiv | tc358746.c:1629 | pll_prediv, DIV_ROUND_CLOSEST(refclk, 4 MHz) stored in a u8. Pll.PreDivInRange states its range. |
| Pll.ProbeAcceptance | tc358746.c:1636-1640 | pllinclk never exceeds 5 MHz. The probe succeeds exactly when refclk/prd does not round below 4 MHz, and otherwise fails on the input-clock check. |
| Pll.PllInClkBounds | tc358746.c:1636-1640 | The arithmetic of the input-clock check. |
| Pll.ProbeAt24MHz | tc358746.c:1619-1641 | 24 MHz gives prd 6 and 4 MHz, which is accepted. |
| Pll.ProbeAt27MHz | tc358746.c:1619-1641 | 27 MHz gives prd 7 and is rejected on the input clock. |
| Pll.SpeedRange | tc358746.c:1525-1532 | The range is 0 above 500 Mbit/s, 1 above 250 Mbit/s, 2 above 125 Mbit/s and 3 otherwise, each in both directions. |
| Pll.SpeedRangeKeepsVcoInBand | tc358746.c:1525-1532 | For every accepted lane rate, bps * 2^range lies in [500 MHz, 1 GHz], and it is the only range with bps * 2^range in (500 MHz, 1 GHz]. |
| Pll.FeedbackDividerBracketsRate | tc358746.c:876-877 | With an accepted input clock nothing is truncated: fbd = (spl / pllinclk) * 2^frs and pllinclk * fbd <= spl * 2^frs < pllinclk * (fbd + 2^frs). |
| Pll.FeedbackDivider | tc358746.c:876-877 | pll_fbd, spl / pllinclk shifted left by frs, in u16. Pll.FeedbackDividerBracketsRate states its value. |
| LaneSettings.FirstRejected | tc358746.c:1506-1523 | The index of the first link frequency whose lane rate 2 * f (as u32) is outside [62.5 Mbit/s, 1 Gbit/s]. Every earlier one is accepted. |
| LaneSettings.FirstRejectedUnique | tc358746.c:1506-1523 | An index before which every rate is accepted, and whose own rate is rejected or which is the length, is the first rejected index. |
| LaneSettings.LaneRate | tc358746.c:1518 | bps_pr_lane, 2 * link_freq reduced to u32. Its acceptance is LaneSettings.FirstRejected. |
| LaneSettings.LaneSetting | tc358746.c:1525-1539 | The six link-setting fields written for one lane rate. LaneSettings.LaneSettingFields and LaneSettings.UnitClockMultiplier state its properties. |
| LaneSettings.LaneSettingFields | tc358746.c:1525-1539 | The record keeps its eleven timing fields. It gets the given rate, lane count and clock mode, the speed range of Pll.SpeedRange and a nonzero unit clock. |
| LaneSettings.UnitClockPositive | tc358746.c:1534 | The unit clock pllinclk >> range is nonzero, so the division after it is defined. |
| LaneSettings.UnitClockMultiplier | tc358746.c:1534-1535 | For an accepted input clock, unit_clk_hz = pllinclk / 2^range >= 500 kHz and unit_clk_mul = bps / unit_clk_hz <= 250, so the u8 does not truncate it. |
| LaneSettings.FillLinkTables | tc358746.c:1506-1549 | Returns the first rejected index, or the length. Every entry before it gets its link setting, and the link frequencies are stored up to and including it. Everything after is untouched. |
| LaneSettings.Tc358746.SetLaneSettings | tc358746.c:1500-1554 | Succeeds exactly when every lane rate is accepted, and returns -EINVAL otherwise. Every entry before the first rejected one gets its range, unit clock, multiplier, rate, lane count and clock mode. Later entries are untouched. link_frequencies is copied up to and including the rejected index. link_frequencies_num changes only on success. |
| LaneSettings.Tc358746.constructor | tc358746.c:1680-1694 | Keeps the PLL input clock and allocates both tables zero-filled with n entries, with no valid entry yet. |
| FifoSolver.MinFifoFrom | tc358746.c:328-364 | The least depth from f upward that passes the three tests, or 512 when none below 512 does. |
| FifoSolver.PclkPeriodPs | tc358746.c:304 | pclk_period_ps. Its scenario value is in FifoSolver.ScenarioPeriods. |
| FifoSolver.CsiBpsPeriodPs | tc358746.c:305-306 | csi_bps_period_ps over the u32 product of rate and lane count. Its scenario value is in FifoSolver.ScenarioPeriods. |
| FifoSolver.PHactivePs | tc358746.c:314 | p_hactive_ps. Its scenario value is in FifoSolver.ScenarioParallelLine. |
| FifoSolver.PHtotalPs | tc358746.c:320-321 | p_htotal_ps. Its scenario value is in FifoSolver.ScenarioParallelLine. |
| FifoSolver.CFifoDelayPs | tc358746.c:335-337 | c_fifo_delay_ps at depth f. FifoSolver.CHactiveExact gives its exact value. |
| FifoSolver.CHactivePs | tc358746.c:344-345 | c_hactive_ps at depth f. FifoSolver.CHactiveExact and FifoSolver.CHactiveMonotone state its properties. |
| FifoSolver.FifoFits | tc358746.c:351-361 | The three signed tests of one iteration. FifoSolver.FifoFitsMath states their meaning. |
| FifoSolver.MinFifo | tc358746.c:328-362 | The depth the loop stops at: FifoSolver.MinFifoFrom from depth 1. FifoSolver.MinFifoUnique proves it the least depth in 1..511 that passes the three tests, or 512 when none does. |
| FifoSolver.MinFifoUnique | tc358746.c:328-364 | A depth below which nothing fits, and which fits or is 512, is the least fitting depth. |
| FifoSolver.FitsAtIff | tc358746.c:328-370 | A setting fits at a width exactly when some depth in 1..511 passes the three tests. |
| FifoSolver.AdjustFifoSize | tc358746.c:289-371 | Writes the least depth in 1..511 for which c_hactive > p_hactive, p_htotal > c_hactive and p_htotal - c_hactive > csi_hs_lp_hs_ps (each as a signed int), and returns 0. When no depth qualifies it writes 512 and returns -EINVAL. |
| FifoSolver.CHactiveExact | tc358746.c:335-345 | Without overflow the unsigned c_hactive_ps is the exact integer value. |
| FifoSolver.CHactiveMonotone | tc358746.c:335-345 | c_hactive_ps does not decrease as the FIFO depth grows. |
| FifoSolver.NoOverflowDown | tc358746.c:335-345 | Freedom from overflow at a depth carries over to every smaller depth. |
| FifoSolver.FifoFitsMath | tc358746.c:351-364 | Without overflow the three signed tests are exactly p_hactive < c_hactive and c_hactive + csi_hs_lp_hs_ps < p_htotal. |
| FifoSolver.SignedTests | tc358746.c:351-364 | The three signed tests on values below 2^31. |
| FifoSolver.TooShallowBelow | tc358746.c:335-364 | Once c_hactive <= p_hactive at a depth, every smaller depth fails. |
| FifoSolver.FitsFormInterval | tc358746.c:335-364 | Without overflow the depths that fit form an interval. |
| FifoSolver.ScenarioPeriods | tc358746.c:304-308 | At 74.25 MHz over four 432 Mbit/s lanes: pixel period 13468 ps, bit period 578 ps, byte-clock period 18518 ps. |
| FifoSolver.ScenarioParallelLine | tc358746.c:314-321 | A 640-pixel UYVY8_2X8 line with 280 pixels of blanking: p_hactive 17239040 ps, p_htotal 21010080 ps. |
| FifoSolver.ScenarioCsiLine | tc358746.c:335-345 | In that scenario c_hactive is 5992792 + 53872 f ps at depths 208 and 209. |
| FifoSolver.FifoAt432MFourLanes | tc358746.c:289-371 | In that scenario with a continuous clock, the least fitting depth is 209. |
| FifoSolver.NextRung | tc358746.c:393-415 | After a width fails at every setting, every tried width above the next rung has failed. |
| FifoSolver.TryOtherSettings | tc358746.c:401-413 | Entered after the current setting failed at a width, it finds the least other index that fits and the least depth there. When nothing fits it ends with index n, depth 512 and no setting fitting that width. |
| FifoSolver.AdjustTimings | tc358746.c:373-416 | Widths are tried from *width down in steps of 10 while positive, and every wider tried width fits no setting. A fit at the current index returns that index only at the first width, and the link count n on any later width. Otherwise the least other fitting index is returned. Exhaustion returns n with no error, width in (-10, 0] and depth 512. A non-positive width changes nothing. |
| RegLayout.SwapHalves | tc358746.c:701-721 | Each payload byte trades places with its partner in the same 16-bit half, and a single byte stays put. |
| RegLayout.SwapHalvesInvolution | tc358746.c:641-654 | The read permutation undoes the write permutation of lines 701-721. |
| RegLayout.I2cWrBuffer | tc358746.c:682-721 | The address goes high byte first. A payload of 1, 2 or 4 bytes is written half-swapped, and no other buffer byte changes. An oversized n is cut to 512 with no payload written. The message length is the u16 of 2 + n. |
| RegLayout.I2cRdValues | tc358746.c:641-657 | A 1-, 2- or 4-byte read fills values with the half-swapped received bytes. Other lengths change nothing. |
| RegLayout.LeBytes | tc358746.c:760-764 | The four little-endian bytes of a u32 value recombine to the value. |
| RegLayout.LeBytesInverse | tc358746.c:751-764 | le32_to_cpu undoes cpu_to_le32, and the high bytes of a short value are zero. |
| RegLayout.WrRegWire | tc358746.c:760-764 | The n payload bytes that i2c_wrreg sends. RegLayout.WrRegWireOrder states their order. |
| RegLayout.RdRegValue | tc358746.c:751-758 | The value i2c_rdreg returns. Each received 16-bit half is big-endian and the low half comes first. |
| RegLayout.WrRegWireOrder | tc358746.c:760-764 | On the wire each 16-bit half is big-endian and the low half goes first. |
| RegLayout.ReadBackWritten | tc358746.c:751-764 | A value that fits the access width reads back as written when the device returns the bytes that were sent. |
| RegLayout.RegSize | tc358746.c:1097-1105 | Addresses up to 0xff are 16-bit, 0x100 to 0x5ff are 32-bit, and everything above is byte-wide. |

## Left out

- I2C transport and logging. This covers `i2c_transfer`, the debug traces of
  `i2c_rd`/`i2c_wr` and the log helpers. The transmit buffer and the received
  bytes are parameters instead.
- `i2c_wr16_and_or`: its result depends on a live register read.
- Register programming sequences. This covers `tc358746_set_pll` beyond the
  feedback divider, `tc358746_set_csi`, stream and lane enables, colour
  space, test pattern, reset and power. Their field masks are in
  `tc358746.h`, which is not part of this model.
- The PLL "rewrite only if changed or disabled" test (tc358746.c:886-887):
  it compares register images built with `tc358746.h` macros.
- V4L2 and media-framework glue, control handling, firmware parsing,
  clocks, GPIOs, delays and probe/remove. Their results enter the model as
  parameters.
- Locking: `confctl_mutex` is concurrency, not logic.
- `FifoSolver.FifoFitsMath`: this and the interval and monotonicity lemmas
  hold only under `NoOverflow`, where every quantity stays below 2^31. With
  wrap-around the search is still modelled exactly (`AdjustFifoSize`,
  `MinFifo`), but the inequalities are not proved.
- `FifoSolver.AdjustTimings`: the link settings are a sequence, not the
  driver's array. The current index `cur` is a parameter, and the
  sequence length `|settings|` stands in for `link_frequencies_num`.
- Upper limits in the synthesiser's comments are not claimed, except for
  the HS-trail one (tc358746.c:518, `Dphy.ThsTrailWithinLimits`). The code
  exceeds the others on accepted lane rates:
  - the 95 ns clock-prepare limit (line 456) at 150 Mbit/s
    (`Dphy.TclkPrepareAboveLimitAt150M`);
  - the 85 ns + 6 spl_p_ps HS-prepare limit (line 480) at 100 Mbit/s
    (`Dphy.ThsPrepareAboveLimitAt100M`). No count meets that window there
    (`Dphy.ThsPrepareWindowEmptyAt100M`);
  - the 105 ns + 12 spl_p_ps clock-trail limit (line 534) at 62.5 Mbit/s
    (`Dphy.TclkTrailAboveLimitAt62M5`).
- `Dphy.CalculateCsiTxTimings`: it requires a lane rate of at least
  8000 bit/s, because below that the C divides by zero.
- `LaneSettings.Tc358746.SetLaneSettings`: it requires a PLL input clock of
  at least 8 Hz, so that `unit_clk_hz` is nonzero, and tables as long as the
  frequency list.
- `tc358746_adjust_timings`, exhaustion: the function does not return an
  error when nothing fits. It returns `link_frequencies_num` with `*width` at
  or below 0. The model follows the code.
