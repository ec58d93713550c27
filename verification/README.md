# Firing-threshold recommender of the SNN SoC

The SoC feeds each pixel to its crossbar as a series of bit-planes, most
significant bit first. For every plane the ADC returns a code, which the
neuron weights by the power of two of that bit and adds to its membrane.
After each bit-plane the neuron fires whenever the membrane reaches the
threshold, and the threshold is then subtracted (or the membrane cleared).
The recommender `doc/threshold_recommend.py` proposes that
threshold from the worst-case accumulation over all `timesteps` frames:

- the peak ADC code is either the full-scale code `2^adc_bits - 1`, or a
  supplied peak, or 80 by default;
- one frame can reach at most `max_per_frame = peak * (2^pixel_bits - 1)`;
- all frames together can reach at most `max_total = max_per_frame * timesteps`;
- the recommendation is `int(max_total * activity * margin)`.

The project models that computation and proves what it promises:

- The full-scale peak is the all-ones ADC code and ignores a supplied peak.
- Otherwise the peak is the supplied one or 80.
- The two maxima really are the accumulation of a fully-on input. They are
  proved equal to an independent bit-plane accumulation (a function and an
  MSB-first loop), and every input whose planes stay within the peak is
  bounded by them.
- The total is linear in the timestep count.
- The recommendation is the truncated product, lies between 0 and the total
  when the factors are in [0, 1], and is monotone in the timestep count, the
  peak and the ADC width.
- The command-line defaults give the values 80 / 20400 / 102000 / 61200, and
  4095 / 1044225 / 5221125 / 3132675 at full scale.

Modules:

- `Wrappers`: `Option` and `Result`.
- `Binary`: `1 << n` as `ShiftLeft`, powers of two, and all-ones codes.
- `Truncation`: Python's `int()` of a float, which truncates toward zero.
- `Scaling`: the activity and margin product, and its truncation.
- `BitPlane`: the MSB-first bit-plane accumulation that serves as the reference.
- `ThresholdRecommend`: the recommender itself.

## Model

| member | source | states |
|---|---|---|
| ThresholdRecommend.Recommend | doc/threshold_recommend.py:27-34 | Full scale gives the all-ones `adc_bits` code as the peak. Otherwise the supplied peak is used, or 80 without one. `max_per_frame` is the peak times the all-ones pixel code, `max_total` is that times `timesteps`, and the recommendation is the truncated scaled total. |
| ThresholdRecommend.TryRecommend | doc/threshold_recommend.py:27-32 | Of the original's failures, only the shift failure is modelled (the float overflow of line 34 is not): the computation fails exactly when a negative count is shifted: `adc_bits` (full scale only) is checked first, then `pixel_bits`. Otherwise the result equals `Recommend`. |
| ThresholdRecommend.FullScalePeak | doc/threshold_recommend.py:27-28 | With full scale, the peak plus one is 2^adc_bits. |
| ThresholdRecommend.FullScaleIgnoresSuppliedPeak | doc/threshold_recommend.py:27-30 | With full scale, all four reported values are the same whether or not a peak is supplied. |
| ThresholdRecommend.SuppliedOrDefaultPeak | doc/threshold_recommend.py:29-30 | Without full scale, a supplied peak is kept as given (0 included); with none supplied, the peak is 80. |
| ThresholdRecommend.MaxPerFrameIsFullyOnFrame | doc/threshold_recommend.py:32 | `max_per_frame` equals the bit-plane accumulation of a frame whose every plane reads the peak. It bounds the accumulation of every frame whose plane codes lie in [0, peak]. |
| ThresholdRecommend.EightBitFrame | doc/threshold_recommend.py:32 | With 8-bit pixels, `max_per_frame` is 255 times the peak. |
| ThresholdRecommend.MaxTotalIsFullyOnRun | doc/threshold_recommend.py:32-33 | `max_total` equals the accumulation of `timesteps` fully-on frames. It bounds every run of that many frames whose codes lie in [0, peak]. |
| ThresholdRecommend.TotalMaximumByAccumulation | doc/threshold_recommend.py:32-33 | Running the MSB-first accumulation loop on a fully-on input ends with a membrane equal to `max_total`. |
| ThresholdRecommend.MaxTotalLinearInTimesteps | doc/threshold_recommend.py:33-34 | `max_total` for t1 + t2 timesteps is the sum of those for t1 and for t2. With zero timesteps, `max_total` and the recommendation are 0. |
| ThresholdRecommend.MaxTotalMonotoneInTimesteps | doc/threshold_recommend.py:33 | With a non-negative peak, more timesteps never give a smaller `max_total`. |
| ThresholdRecommend.RecommendedWithinMaxTotal | doc/threshold_recommend.py:34 | With activity and margin in [0, 1], the exact-real recommendation lies between 0 and `max_total`, whichever sign `max_total` has. |
| ThresholdRecommend.RecommendedMonotoneInTimesteps | doc/threshold_recommend.py:32-34 | With a non-negative peak, activity and margin, more timesteps never give a smaller recommendation. |
| ThresholdRecommend.RecommendedMonotoneInPeak | doc/threshold_recommend.py:29-34 | With non-negative timesteps, activity and margin, a larger supplied peak never gives a smaller `max_per_frame`, `max_total` or recommendation. |
| ThresholdRecommend.RecommendedMonotoneInAdcBits | doc/threshold_recommend.py:27-34 | At full scale, a wider ADC never gives a smaller `max_per_frame`, `max_total` or recommendation. |
| ThresholdRecommend.ScalingMonotoneInPeak | doc/threshold_recommend.py:32-34 | The steps after peak selection are monotone in the peak for non-negative timesteps, activity and margin. |
| ThresholdRecommend.DefaultPeakExample | doc/threshold_recommend.py:18-34 | With the command-line defaults and no peak, the values are 80, 20400, 102000 and 61200. |
| ThresholdRecommend.FullScaleExample | doc/threshold_recommend.py:18-34 | With the command-line defaults at full scale, the values are 4095, 1044225, 5221125 and 3132675. |
| Binary.Pow2 | doc/threshold_recommend.py:28 | 2^n, the value of `1 << n`, is at least 1. |
| Binary.ShiftLeft | doc/threshold_recommend.py:28 | `x << n` is divisible by 2^n, and dividing it by 2^n gives back `x`. |
| Binary.AllOnes | doc/threshold_recommend.py:28 | The n-bit all-ones code is below 2^n. |
| Binary.AllOnesIsPow2MinusOne | doc/threshold_recommend.py:28 | `(1 << n) - 1` is the all-ones n-bit code, that is, 2^n - 1. |
| Binary.AllOnesIsLargestCode | doc/threshold_recommend.py:28 | Every n-bit code is at most the all-ones code. |
| Binary.Pow2Monotone | doc/threshold_recommend.py:28 | 2^a <= 2^b whenever a <= b. |
| Truncation.TruncTowardZero | doc/threshold_recommend.py:34 | `int(x)` is the integer nearest to `x` on the side of zero: within one below a non-negative `x`, within one above a negative `x`. |
| Truncation.TruncOfInteger | doc/threshold_recommend.py:34 | Truncating an integral value returns it unchanged. |
| Truncation.TruncMonotone | doc/threshold_recommend.py:34 | Truncation is monotone. |
| Wrappers.Option.GetOr | doc/threshold_recommend.py:30 | A present value is returned as is; an absent one gives the default, as `adc_peak if adc_peak is not None else 80` does. |
| Scaling.ScaleTwoFactors | doc/threshold_recommend.py:34 | Scaling by two factors in turn is the product of all three values. |
| Scaling.ScaleWithin | doc/threshold_recommend.py:34 | Scaling by factors in [0, 1] keeps the value between 0 and itself. |
| Scaling.ScaleMonotone | doc/threshold_recommend.py:34 | Scaling by non-negative factors is monotone. |
| Scaling.Scale | doc/threshold_recommend.py:34 | The left-to-right product `max_total * activity * margin`, one factor at a time; `ScaleTwoFactors` ties it to the product. |
| Scaling.ScaledThreshold | doc/threshold_recommend.py:34 | `int(max_total * activity * margin)`: truncation toward zero of the exact product, i.e. the integer within one of it on the side of zero. |
| Scaling.ScaledThresholdWithin | doc/threshold_recommend.py:34 | With factors in [0, 1], the truncated product lies between 0 and the total. |
| Scaling.ScaledThresholdMonotone | doc/threshold_recommend.py:34 | With non-negative factors, a larger total never gives a smaller truncated product. |
| Scaling.ScaledThresholdOfZero | doc/threshold_recommend.py:34 | A zero total gives a zero recommendation. |
| BitPlane.PlaneSum | doc/threshold_recommend.py:32 | The reference accumulation of one frame: each plane's code weighted by 2^bit, MSB first; `FullyOnPlaneSum` and `PlaneSumBounds` relate it to `max_per_frame`. |
| BitPlane.FrameTotal | doc/threshold_recommend.py:33 | The reference accumulation of a run of frames; `FullyOnFrameTotal` and `FrameTotalBounds` relate it to `max_total`. |
| BitPlane.FullyOn | doc/threshold_recommend.py:32 | A fully-on frame has one plane per pixel bit, and every plane reads the peak. |
| BitPlane.FullyOnPlaneSum | doc/threshold_recommend.py:32 | A fully-on frame accumulates `peak * (2^bits - 1)`. |
| BitPlane.PlaneSumBounds | doc/threshold_recommend.py:32 | A frame whose codes lie in [0, peak] accumulates between 0 and `peak * (2^bits - 1)`. |
| BitPlane.FrameTotalBounds | doc/threshold_recommend.py:32-33 | Frames whose codes lie in [0, peak] accumulate between 0 and `timesteps * peak * (2^bits - 1)`. |
| BitPlane.FullyOnFrameTotal | doc/threshold_recommend.py:32-33 | `timesteps` fully-on frames accumulate `timesteps * peak * (2^bits - 1)`. |
| BitPlane.WorstCaseMembrane | doc/threshold_recommend.py:32-33 | The MSB-first loop over timesteps and bit-planes, driven by a fully-on input, ends at `timesteps * peak * (2^bits - 1)`. |

## Left out

- Argument parsing and the printed report (`doc/threshold_recommend.py:16-25`
  and `36-46`). The command-line defaults appear only as constants and in the
  two example lemmas.
- IEEE-754 rounding of `max_total * activity * margin`. The model multiplies
  exact reals. While `|max_total|` is below 2^53 and the product's magnitude
  below 2^52, the float result differs from the model by at most one, where
  the float product rounds across an integer. Beyond that the difference is
  unbounded: from 2^53 on, `max_total` itself is rounded when converted, and
  the float result can exceed `max_total` (full scale with 60 ADC bits, 8
  pixel bits, 5 timesteps and both factors 1.0 gives 1275 more than
  `max_total`). So the bound and monotonicity lemmas on the recommendation
  hold for the exact-real model, and for the program only in that range.
  Infinities and NaN factors are not modelled either.
- ThresholdRecommend.RecommendedWithinMaxTotal: the bound is proved for the
  exact-real recommendation; the float program meets it only while
  `|max_total|` stays below 2^53, as the line above explains.
- ThresholdRecommend.TryRecommend: does not model the `OverflowError` that
  line 34 raises when `max_total` lies beyond the float range (for example
  full scale with 1100 ADC bits); it returns `Success` there, because the
  float range is not part of this model.
- ThresholdRecommend.Recommend: a negative shift count is a precondition, not
  a result. The Python code raises `ValueError` there; `TryRecommend` models
  that failure.
- Activity and margin are not validated by the recommender, so the
  bound and monotonicity lemmas state their own sign assumptions. A margin
  above 1, which the option's name invites, can push the recommendation
  above `max_total`.
- The inference engine, the quantizer, the crossbar, and the ADC and noise
  models whose behaviour motivates the default peak of 80 are not part of
  this model. `BitPlane` stands in for their accumulation only as far as the
  worst-case bound needs.
