/** The firing-threshold recommender of the spiking-neural-network SoC.

    From the ADC resolution, the bit-plane depth of a pixel, the number of
    accumulated frames and an expected ADC peak, it derives the largest
    membrane value a fully-on input can reach in one frame and over all
    frames, and scales the latter by an activity ratio and a safety margin to
    propose a firing threshold. */
module ThresholdRecommend {
  import opened Wrappers
  import opened Binary
  import opened BitPlane
  import opened Scaling

  /** Command-line defaults of the recommender. */
  const DefaultAdcBits: int := 12
  const DefaultPixelBits: int := 8
  const DefaultTimesteps: int := 5
  const DefaultActivity: real := 0.6
  const DefaultMargin: real := 1.0

  /** The peak ADC code assumed when none is supplied and full scale is not
      requested; it matches the behavioural ADC model of the SoC. */
  const DefaultAdcPeak: int := 80

  /** The four values the recommender reports. */
  datatype Recommendation = Recommendation(
    adcPeak: int,       // peak ADC code of one bit-plane conversion
    maxPerFrame: int,   // largest accumulation of one frame
    maxTotal: int,      // largest accumulation over all timesteps
    recommended: int)   // proposed firing threshold

  /** Why the recommender stops: Python's `1 << n` raises on a negative count. */
  datatype Error = NegativeShiftCount(count: int)

  /** The threshold recommendation for the given arguments. A negative shift
      count, on which the original raises, is excluded here and modelled by
      `TryRecommend`. */
  function Recommend(adcBits: int, pixelBits: int, timesteps: int, adcPeakOpt: Option<int>,
                     useFullscale: bool, activity: real, margin: real): (r: Recommendation)
    requires 0 <= pixelBits
    requires useFullscale ==> 0 <= adcBits
    // the full-scale peak is the all-ones code of `adcBits` bits
    ensures useFullscale ==> r.adcPeak == AllOnes(adcBits)
    ensures !useFullscale ==> r.adcPeak == adcPeakOpt.GetOr(DefaultAdcPeak)
    // one frame adds the peak once for every one-bit of an all-ones pixel
    ensures r.maxPerFrame == r.adcPeak * AllOnes(pixelBits)
    ensures r.maxTotal == r.maxPerFrame * timesteps
    ensures r.recommended == ScaledThreshold(r.maxTotal, activity, margin)
  {
    AllOnesIsPow2MinusOne(pixelBits);
    AllOnesIsPow2MinusOne(if useFullscale then adcBits else 0);
    var adcPeak := if useFullscale then ShiftLeft(1, adcBits) - 1 else adcPeakOpt.GetOr(DefaultAdcPeak);
    var maxPerFrame := adcPeak * (ShiftLeft(1, pixelBits) - 1);
    var maxTotal := maxPerFrame * timesteps;
    Recommendation(adcPeak, maxPerFrame, maxTotal, ScaledThreshold(maxTotal, activity, margin))
  }

  /** The recommender with Python's failure on a negative shift count made
      explicit: the full-scale shift is evaluated first, then the pixel shift. */
  function TryRecommend(adcBits: int, pixelBits: int, timesteps: int, adcPeakOpt: Option<int>,
                        useFullscale: bool, activity: real, margin: real): (r: Result<Recommendation, Error>)
    ensures r.Success? <==> 0 <= pixelBits && (useFullscale ==> 0 <= adcBits)
    ensures r.Success? ==>
      r.value == Recommend(adcBits, pixelBits, timesteps, adcPeakOpt, useFullscale, activity, margin)
    ensures r.Failure? && useFullscale && adcBits < 0 ==> r.error == NegativeShiftCount(adcBits)
    ensures r.Failure? && !(useFullscale && adcBits < 0) ==> r.error == NegativeShiftCount(pixelBits)
  {
    if useFullscale && adcBits < 0 then Failure(NegativeShiftCount(adcBits))
    else if pixelBits < 0 then Failure(NegativeShiftCount(pixelBits))
    else Success(Recommend(adcBits, pixelBits, timesteps, adcPeakOpt, useFullscale, activity, margin))
  }

  /** With full scale requested, the peak is 2^adcBits - 1, the largest
      `adcBits`-bit code. */
  lemma FullScalePeak(adcBits: int, pixelBits: int, timesteps: int, adcPeakOpt: Option<int>,
                      activity: real, margin: real)
    requires 0 <= pixelBits && 0 <= adcBits
    ensures Recommend(adcBits, pixelBits, timesteps, adcPeakOpt, true, activity, margin).adcPeak + 1
         == Pow2(adcBits)
  {
    AllOnesIsPow2MinusOne(adcBits);
  }

  /** With full scale requested, a supplied peak has no influence on any
      reported value. */
  lemma FullScaleIgnoresSuppliedPeak(adcBits: int, pixelBits: int, timesteps: int, adcPeakOpt: Option<int>,
                                     activity: real, margin: real)
    requires 0 <= pixelBits && 0 <= adcBits
    ensures Recommend(adcBits, pixelBits, timesteps, adcPeakOpt, true, activity, margin)
         == Recommend(adcBits, pixelBits, timesteps, None, true, activity, margin)
  {
    var r1 := Recommend(adcBits, pixelBits, timesteps, adcPeakOpt, true, activity, margin);
    var r2 := Recommend(adcBits, pixelBits, timesteps, None, true, activity, margin);
    assert r1.adcPeak == r2.adcPeak;
    assert r1.maxPerFrame == r2.maxPerFrame;
    assert r1.maxTotal == r2.maxTotal;
  }

  /** Without full scale, the peak is the supplied one, or 80 when none is
      supplied; a supplied 0 is kept, not replaced by the default. */
  lemma SuppliedOrDefaultPeak(adcBits: int, pixelBits: int, timesteps: int, peak: int,
                              activity: real, margin: real)
    requires 0 <= pixelBits
    ensures Recommend(adcBits, pixelBits, timesteps, Some(peak), false, activity, margin).adcPeak == peak
    ensures Recommend(adcBits, pixelBits, timesteps, None, false, activity, margin).adcPeak == 80
  {
  }

  /** The per-frame maximum is the accumulation of a frame whose every bit-plane
      reads the peak code, and bounds every frame whose planes stay within it. */
  lemma MaxPerFrameIsFullyOnFrame(adcBits: int, pixelBits: int, timesteps: int, adcPeakOpt: Option<int>,
                                  useFullscale: bool, activity: real, margin: real, codes: FrameCodes)
    requires 0 <= pixelBits
    requires useFullscale ==> 0 <= adcBits
    requires |codes| == pixelBits
    ensures var r := Recommend(adcBits, pixelBits, timesteps, adcPeakOpt, useFullscale, activity, margin);
            && r.maxPerFrame == PlaneSum(FullyOn(r.adcPeak, pixelBits))
            && (CodesWithin(codes, r.adcPeak) ==> 0 <= PlaneSum(codes) <= r.maxPerFrame)
  {
    var r := Recommend(adcBits, pixelBits, timesteps, adcPeakOpt, useFullscale, activity, margin);
    AllOnesIsPow2MinusOne(pixelBits);
    FullyOnPlaneSum(r.adcPeak, pixelBits);
    if CodesWithin(codes, r.adcPeak) {
      PlaneSumBounds(codes, r.adcPeak);
    }
  }

  /** With 8-bit pixels the per-frame maximum is 255 times the peak. */
  lemma EightBitFrame(adcBits: int, timesteps: int, adcPeakOpt: Option<int>,
                      useFullscale: bool, activity: real, margin: real)
    requires useFullscale ==> 0 <= adcBits
    ensures var r := Recommend(adcBits, 8, timesteps, adcPeakOpt, useFullscale, activity, margin);
            r.maxPerFrame == r.adcPeak * 255
  {
    AllOnesIsPow2MinusOne(8);
  }

  /** The total maximum is the accumulation of `timesteps` fully-on frames, and
      bounds every run of `timesteps` frames whose planes stay within the peak. */
  lemma MaxTotalIsFullyOnRun(adcBits: int, pixelBits: int, timesteps: nat, adcPeakOpt: Option<int>,
                             useFullscale: bool, activity: real, margin: real, frames: seq<FrameCodes>)
    requires 0 <= pixelBits
    requires useFullscale ==> 0 <= adcBits
    requires |frames| == timesteps
    ensures var r := Recommend(adcBits, pixelBits, timesteps, adcPeakOpt, useFullscale, activity, margin);
            && r.maxTotal == FrameTotal(seq(timesteps, _ => FullyOn(r.adcPeak, pixelBits)))
            && ((forall t :: 0 <= t < timesteps ==> |frames[t]| == pixelBits && CodesWithin(frames[t], r.adcPeak))
                ==> 0 <= FrameTotal(frames) <= r.maxTotal)
  {
    var r := Recommend(adcBits, pixelBits, timesteps, adcPeakOpt, useFullscale, activity, margin);
    AllOnesIsPow2MinusOne(pixelBits);
    FullyOnFrameTotal(r.adcPeak, pixelBits, timesteps);
    assert r.maxTotal == timesteps * (r.adcPeak * (Pow2(pixelBits) - 1));
    if forall t :: 0 <= t < timesteps ==> |frames[t]| == pixelBits && CodesWithin(frames[t], r.adcPeak) {
      FrameTotalBounds(frames, r.adcPeak, pixelBits);
    }
  }

  /** The total maximum equals the membrane a fully-on input drives the
      MSB-first accumulation loop to. */
  method TotalMaximumByAccumulation(adcBits: int, pixelBits: nat, timesteps: nat, adcPeakOpt: Option<int>,
                                    useFullscale: bool, activity: real, margin: real) returns (membrane: int)
    requires useFullscale ==> 0 <= adcBits
    ensures membrane == Recommend(adcBits, pixelBits, timesteps, adcPeakOpt, useFullscale, activity, margin).maxTotal
  {
    var r := Recommend(adcBits, pixelBits, timesteps, adcPeakOpt, useFullscale, activity, margin);
    membrane := WorstCaseMembrane(r.adcPeak, pixelBits, timesteps);
    AllOnesIsPow2MinusOne(pixelBits);
  }

  /** The total maximum is linear in the timestep count and vanishes, together
      with the recommendation, when there are no timesteps. */
  lemma MaxTotalLinearInTimesteps(adcBits: int, pixelBits: int, t1: int, t2: int, adcPeakOpt: Option<int>,
                                  useFullscale: bool, activity: real, margin: real)
    requires 0 <= pixelBits
    requires useFullscale ==> 0 <= adcBits
    ensures Recommend(adcBits, pixelBits, t1 + t2, adcPeakOpt, useFullscale, activity, margin).maxTotal
         == Recommend(adcBits, pixelBits, t1, adcPeakOpt, useFullscale, activity, margin).maxTotal
          + Recommend(adcBits, pixelBits, t2, adcPeakOpt, useFullscale, activity, margin).maxTotal
    ensures Recommend(adcBits, pixelBits, 0, adcPeakOpt, useFullscale, activity, margin).maxTotal == 0
    ensures Recommend(adcBits, pixelBits, 0, adcPeakOpt, useFullscale, activity, margin).recommended == 0
  {
    var r := Recommend(adcBits, pixelBits, t1, adcPeakOpt, useFullscale, activity, margin);
    MulDistributes(r.maxPerFrame, t1, t2);
    ScaledThresholdOfZero(activity, margin);
  }

  /** With a non-negative peak, the total maximum does not decrease as the
      timestep count grows. */
  lemma MaxTotalMonotoneInTimesteps(adcBits: int, pixelBits: int, t1: int, t2: int, adcPeakOpt: Option<int>,
                                    useFullscale: bool, activity: real, margin: real)
    requires 0 <= pixelBits
    requires useFullscale ==> 0 <= adcBits
    requires 0 <= Recommend(adcBits, pixelBits, t1, adcPeakOpt, useFullscale, activity, margin).adcPeak
    requires t1 <= t2
    ensures Recommend(adcBits, pixelBits, t1, adcPeakOpt, useFullscale, activity, margin).maxTotal
         <= Recommend(adcBits, pixelBits, t2, adcPeakOpt, useFullscale, activity, margin).maxTotal
  {
    var r1 := Recommend(adcBits, pixelBits, t1, adcPeakOpt, useFullscale, activity, margin);
    MulNonNegative(r1.adcPeak, AllOnes(pixelBits));
    MulMonotoneRight(r1.maxPerFrame, t1, t2);
  }

  /** Scaling by an activity ratio and a margin, both within [0, 1], keeps the
      recommendation between 0 and the total maximum, whatever its sign. */
  lemma RecommendedWithinMaxTotal(adcBits: int, pixelBits: int, timesteps: int, adcPeakOpt: Option<int>,
                                  useFullscale: bool, activity: real, margin: real)
    requires 0 <= pixelBits
    requires useFullscale ==> 0 <= adcBits
    requires 0.0 <= activity <= 1.0 && 0.0 <= margin <= 1.0
    ensures var r := Recommend(adcBits, pixelBits, timesteps, adcPeakOpt, useFullscale, activity, margin);
            && (0 <= r.maxTotal ==> 0 <= r.recommended <= r.maxTotal)
            && (r.maxTotal <= 0 ==> r.maxTotal <= r.recommended <= 0)
  {
    var r := Recommend(adcBits, pixelBits, timesteps, adcPeakOpt, useFullscale, activity, margin);
    ScaledThresholdWithin(r.maxTotal, activity, margin);
  }

  /** With a non-negative peak, activity ratio and margin, the recommendation
      does not decrease as the timestep count grows. */
  lemma RecommendedMonotoneInTimesteps(adcBits: int, pixelBits: int, t1: int, t2: int, adcPeakOpt: Option<int>,
                                       useFullscale: bool, activity: real, margin: real)
    requires 0 <= pixelBits
    requires useFullscale ==> 0 <= adcBits
    requires 0 <= Recommend(adcBits, pixelBits, t1, adcPeakOpt, useFullscale, activity, margin).adcPeak
    requires t1 <= t2
    requires 0.0 <= activity && 0.0 <= margin
    ensures Recommend(adcBits, pixelBits, t1, adcPeakOpt, useFullscale, activity, margin).recommended
         <= Recommend(adcBits, pixelBits, t2, adcPeakOpt, useFullscale, activity, margin).recommended
  {
    var r1 := Recommend(adcBits, pixelBits, t1, adcPeakOpt, useFullscale, activity, margin);
    var r2 := Recommend(adcBits, pixelBits, t2, adcPeakOpt, useFullscale, activity, margin);
    MaxTotalMonotoneInTimesteps(adcBits, pixelBits, t1, t2, adcPeakOpt, useFullscale, activity, margin);
    ScaledThresholdMonotone(r1.maxTotal, r2.maxTotal, activity, margin);
  }

  /** With a non-negative timestep count, activity ratio and margin, a larger
      supplied peak never yields a smaller per-frame maximum, total maximum or
      recommendation. */
  lemma RecommendedMonotoneInPeak(adcBits: int, pixelBits: int, timesteps: int, p1: int, p2: int,
                                  activity: real, margin: real)
    requires 0 <= pixelBits
    requires 0 <= timesteps
    requires p1 <= p2
    requires 0.0 <= activity && 0.0 <= margin
    ensures var r1 := Recommend(adcBits, pixelBits, timesteps, Some(p1), false, activity, margin);
            var r2 := Recommend(adcBits, pixelBits, timesteps, Some(p2), false, activity, margin);
            && r1.maxPerFrame <= r2.maxPerFrame
            && r1.maxTotal <= r2.maxTotal
            && r1.recommended <= r2.recommended
  {
    var r1 := Recommend(adcBits, pixelBits, timesteps, Some(p1), false, activity, margin);
    var r2 := Recommend(adcBits, pixelBits, timesteps, Some(p2), false, activity, margin);
    ScalingMonotoneInPeak(r1, r2, pixelBits, timesteps, activity, margin);
  }

  /** In full-scale mode, a wider ADC never yields a smaller per-frame maximum,
      total maximum or recommendation when the timestep count, activity ratio
      and margin are non-negative. */
  lemma RecommendedMonotoneInAdcBits(b1: int, b2: int, pixelBits: int, timesteps: int, adcPeakOpt: Option<int>,
                                     activity: real, margin: real)
    requires 0 <= b1 <= b2
    requires 0 <= pixelBits
    requires 0 <= timesteps
    requires 0.0 <= activity && 0.0 <= margin
    ensures var r1 := Recommend(b1, pixelBits, timesteps, adcPeakOpt, true, activity, margin);
            var r2 := Recommend(b2, pixelBits, timesteps, adcPeakOpt, true, activity, margin);
            && r1.maxPerFrame <= r2.maxPerFrame
            && r1.maxTotal <= r2.maxTotal
            && r1.recommended <= r2.recommended
  {
    var r1 := Recommend(b1, pixelBits, timesteps, adcPeakOpt, true, activity, margin);
    var r2 := Recommend(b2, pixelBits, timesteps, adcPeakOpt, true, activity, margin);
    AllOnesIsPow2MinusOne(b1);
    AllOnesIsPow2MinusOne(b2);
    Pow2Monotone(b1, b2);
    ScalingMonotoneInPeak(r1, r2, pixelBits, timesteps, activity, margin);
  }

  /** The steps after peak selection are monotone in the peak when the
      timestep count, activity ratio and margin are non-negative. */
  lemma ScalingMonotoneInPeak(r1: Recommendation, r2: Recommendation, pixelBits: nat, timesteps: int,
                              activity: real, margin: real)
    requires r1.adcPeak <= r2.adcPeak
    requires 0 <= timesteps
    requires 0.0 <= activity && 0.0 <= margin
    requires r1.maxPerFrame == r1.adcPeak * AllOnes(pixelBits)
    requires r2.maxPerFrame == r2.adcPeak * AllOnes(pixelBits)
    requires r1.maxTotal == r1.maxPerFrame * timesteps
    requires r2.maxTotal == r2.maxPerFrame * timesteps
    requires r1.recommended == ScaledThreshold(r1.maxTotal, activity, margin)
    requires r2.recommended == ScaledThreshold(r2.maxTotal, activity, margin)
    ensures r1.maxPerFrame <= r2.maxPerFrame
    ensures r1.maxTotal <= r2.maxTotal
    ensures r1.recommended <= r2.recommended
  {
    MulMonotoneLeft(r1.adcPeak, r2.adcPeak, AllOnes(pixelBits));
    MulMonotoneLeft(r1.maxPerFrame, r2.maxPerFrame, timesteps);
    ScaledThresholdMonotone(r1.maxTotal, r2.maxTotal, activity, margin);
  }

  lemma MulNonNegative(a: int, b: int)
    requires 0 <= a && 0 <= b
    ensures 0 <= a * b
  {
  }

  lemma MulMonotoneLeft(a: int, b: int, c: int)
    requires a <= b && 0 <= c
    ensures a * c <= b * c
  {
  }

  lemma MulMonotoneRight(c: int, a: int, b: int)
    requires a <= b && 0 <= c
    ensures c * a <= c * b
  {
  }

  lemma MulDistributes(c: int, a: int, b: int)
    ensures c * (a + b) == c * a + c * b
  {
  }

  /** The command-line defaults with the default peak of 80. */
  lemma DefaultPeakExample()
    ensures Recommend(DefaultAdcBits, DefaultPixelBits, DefaultTimesteps, None, false,
                      DefaultActivity, DefaultMargin)
         == Recommendation(80, 20400, 102000, 61200)
  {
    AllOnesIsPow2MinusOne(8);
  }

  /** The command-line defaults with the full-scale 12-bit peak. */
  lemma FullScaleExample()
    ensures Recommend(DefaultAdcBits, DefaultPixelBits, DefaultTimesteps, None, true,
                      DefaultActivity, DefaultMargin)
         == Recommendation(4095, 1044225, 5221125, 3132675)
  {
    AllOnesIsPow2MinusOne(8);
    AllOnesIsPow2MinusOne(12);
  }
}
