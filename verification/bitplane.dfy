/** Bit-plane-serial accumulation, the process whose worst case the recommended
    firing threshold is derived from. A pixel of `n` bits is fed to the crossbar
    one bit-plane at a time, most significant bit first; the ADC output of the
    plane for bit `b` is weighted by 2^b and added to the membrane. */
module BitPlane {
  import opened Binary

  /** The ADC outputs of one frame, one per bit-plane, listed most significant
      plane first: `codes[0]` belongs to bit `|codes| - 1`, the last to bit 0. */
  type FrameCodes = seq<int>

  /** The membrane contribution of one frame: each plane's code weighted by the
      power of two of its bit position, summed in MSB-first order. */
  function PlaneSum(codes: FrameCodes): int
  {
    if |codes| == 0 then 0
    else codes[0] * Pow2(|codes| - 1) + PlaneSum(codes[1..])
  }

  /** The membrane contribution of a run of frames, one frame per timestep. */
  function FrameTotal(frames: seq<FrameCodes>): int
  {
    if |frames| == 0 then 0 else PlaneSum(frames[0]) + FrameTotal(frames[1..])
  }

  /** A frame in which every one of the `bits` planes reads the code `peak`. */
  function FullyOn(peak: int, bits: nat): (codes: FrameCodes)
    ensures |codes| == bits
    ensures forall i :: 0 <= i < bits ==> codes[i] == peak
  {
    seq(bits, _ => peak)
  }

  /** Every plane of the frame reads a code between 0 and `peak`. */
  predicate CodesWithin(codes: FrameCodes, peak: int)
  {
    forall i :: 0 <= i < |codes| ==> 0 <= codes[i] <= peak
  }

  /** A fully-on frame accumulates `peak * (2^bits - 1)`. */
  lemma {:induction false} FullyOnPlaneSum(peak: int, bits: nat)
    ensures PlaneSum(FullyOn(peak, bits)) == peak * (Pow2(bits) - 1)
  {
    if bits > 0 {
      var codes := FullyOn(peak, bits);
      assert codes[1..] == FullyOn(peak, bits - 1);
      FullyOnPlaneSum(peak, bits - 1);
      calc {
        PlaneSum(codes);
        peak * Pow2(bits - 1) + peak * (Pow2(bits - 1) - 1);
        peak * (2 * Pow2(bits - 1) - 1);
        peak * (Pow2(bits) - 1);
      }
    }
  }

  /** A frame whose planes each read between 0 and `peak` accumulates between 0
      and `peak * (2^bits - 1)`: the fully-on frame is the largest. */
  lemma {:induction false} PlaneSumBounds(codes: FrameCodes, peak: int)
    requires CodesWithin(codes, peak)
    ensures 0 <= PlaneSum(codes)
    ensures PlaneSum(codes) <= peak * (Pow2(|codes|) - 1)
  {
    if |codes| > 0 {
      var n := |codes|;
      var rest := codes[1..];
      var w := Pow2(n - 1);
      assert CodesWithin(rest, peak) by {
        forall i | 0 <= i < n - 1
          ensures 0 <= rest[i] <= peak
        {
          assert rest[i] == codes[i + 1];
        }
      }
      PlaneSumBounds(rest, peak);
      assert |rest| == n - 1;
      assert Pow2(|rest|) - 1 == w - 1;
      assert PlaneSum(codes) == codes[0] * w + PlaneSum(rest);
      PlaneStep(codes[0], peak, w, PlaneSum(rest));
      assert Pow2(n) - 1 == 2 * w - 1;
    }
  }

  /** One step of `PlaneSumBounds`: adding a plane of weight `w` whose code is
      within `peak` to planes bounded by `peak * (w - 1)`. */
  lemma PlaneStep(c: int, peak: int, w: nat, rest: int)
    requires 0 <= c <= peak
    requires 0 <= rest <= peak * (w - 1)
    ensures 0 <= c * w + rest <= peak * (2 * w - 1)
  {
    assert 0 <= c * w <= peak * w;
  }

  /** `timesteps` frames that each stay within `peak` accumulate between 0 and
      `timesteps * peak * (2^bits - 1)`. */
  lemma {:induction false} FrameTotalBounds(frames: seq<FrameCodes>, peak: int, bits: nat)
    requires forall t :: 0 <= t < |frames| ==> |frames[t]| == bits && CodesWithin(frames[t], peak)
    ensures 0 <= FrameTotal(frames)
    ensures FrameTotal(frames) <= |frames| * (peak * (Pow2(bits) - 1))
  {
    if |frames| > 0 {
      var frameMax := peak * (Pow2(bits) - 1);
      PlaneSumBounds(frames[0], peak);
      assert PlaneSum(frames[0]) <= frameMax;
      assert forall t :: 0 <= t < |frames| - 1 ==> frames[1..][t] == frames[t + 1];
      FrameTotalBounds(frames[1..], peak, bits);
      assert |frames[1..]| == |frames| - 1;
      MulSucc(|frames| - 1, frameMax);
    }
  }

  /** `timesteps` fully-on frames accumulate `timesteps * peak * (2^bits - 1)`. */
  lemma {:induction false} FullyOnFrameTotal(peak: int, bits: nat, timesteps: nat)
    ensures FrameTotal(seq(timesteps, _ => FullyOn(peak, bits))) == timesteps * (peak * (Pow2(bits) - 1))
  {
    if timesteps > 0 {
      var frameMax := peak * (Pow2(bits) - 1);
      var frames := seq(timesteps, _ => FullyOn(peak, bits));
      assert frames[1..] == seq(timesteps - 1, _ => FullyOn(peak, bits));
      FullyOnFrameTotal(peak, bits, timesteps - 1);
      FullyOnPlaneSum(peak, bits);
      assert FrameTotal(frames) == frameMax + (timesteps - 1) * frameMax;
      MulSucc(timesteps - 1, frameMax);
    }
  }

  /** `(t + 1) * m` is `m` more than `t * m`. */
  lemma MulSucc(t: int, m: int)
    ensures (t + 1) * m == m + t * m
  {
  }

  /** Runs the accumulation loop of a fully-on input: for each timestep, each
      bit-plane from the most significant down to bit 0 adds `peak * 2^bit`. */
  method WorstCaseMembrane(peak: int, bits: nat, timesteps: nat) returns (membrane: int)
    ensures membrane == timesteps * (peak * (Pow2(bits) - 1))
  {
    membrane := 0;
    var t := 0;
    while t < timesteps
      invariant 0 <= t <= timesteps
      invariant membrane == t * (peak * (Pow2(bits) - 1))
    {
      var bit := bits;
      while bit > 0
        invariant 0 <= bit <= bits
        invariant membrane == t * (peak * (Pow2(bits) - 1)) + peak * (Pow2(bits) - Pow2(bit))
      {
        bit := bit - 1;
        membrane := membrane + peak * Pow2(bit);
      }
      t := t + 1;
    }
  }
}
