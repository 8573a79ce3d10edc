/**
 The delayed divisive-normalisation model of Groen et al.: its construction
 (time axis, difference-of-gammas impulse response, exponential pooling
 kernel) and its stages `response_shift`, `lin`, `rectf`, `exp`, `norm` and
 `norm_delay`. The object is never changed after construction, so it is a
 value here and each stage is a function of it.
 */
module GroenModel {
  import opened Numerics
  import opened Signals
  import opened ResponseFunction

  /** A constructed model: its parameters, its time axis and its two
      kernels. A kernel is `None` when its samples are not finite. */
  datatype Groen = Groen(
    tauPos: real, tauNeg: real, nIrf: int, weight: real, shift: real, scale: real,
    n: real, sigma: real, tauA: real,
    numTimePts: nat, srate: real,
    t: seq<real>,
    irf: Option<seq<real>>,
    normIrf: Option<seq<real>>)
  {
    ghost predicate Valid()
    {
      && srate > 0.0
      && nIrf >= 1
      && |t| == numTimePts
      && (irf.Some? ==> |irf.value| == numTimePts)
      && (normIrf.Some? ==> |normIrf.value| == numTimePts)
    }
  }

  /** `np.round(shift / (1 / srate))`: the delay in whole samples, within
      half a sample of `shift * srate`, a tie going to the even count. */
  function ShiftSamples(shift: real, srate: real): (d: int)
    requires srate > 0.0
    ensures shift * srate - 0.5 <= d as real <= shift * srate + 0.5
    ensures (d as real == shift * srate - 0.5 || d as real == shift * srate + 0.5) ==> d % 2 == 0
  {
    var q := shift / (1.0 / srate);
    assert q == shift * srate;
    RoundHalfEven(q)
  }

  /** A non-negative delay rounds to a non-negative number of samples, so
      `np.pad` accepts it. */
  lemma ShiftSamplesNonNegative(shift: real, srate: real)
    requires shift >= 0.0 && srate > 0.0
    ensures ShiftSamples(shift, srate) >= 0
  {
    DivPositive(1.0, srate);
    DivNonNegative(shift, 1.0 / srate);
  }

  /** `np.arange(0, numtimepts) / srate`. */
  function TimeAxis(numTimePts: nat, srate: real): (t: seq<real>)
    requires srate > 0.0
    ensures |t| == numTimePts
    ensures forall i :: 0 <= i < numTimePts ==> t[i] * srate == i as real
  {
    seq(numTimePts, i requires 0 <= i < numTimePts => i as real / srate)
  }

  /** The time axis starts at 0 and strictly increases. */
  lemma TimeAxisIncreasing(numTimePts: nat, srate: real)
    requires srate > 0.0
    ensures numTimePts > 0 ==> TimeAxis(numTimePts, srate)[0] == 0.0
    ensures forall i :: 0 <= i < numTimePts ==> TimeAxis(numTimePts, srate)[i] >= 0.0
    ensures forall i, j :: 0 <= i < j < numTimePts ==> TimeAxis(numTimePts, srate)[i] < TimeAxis(numTimePts, srate)[j]
  {
    var t := TimeAxis(numTimePts, srate);
    forall i, j | 0 <= i < j < numTimePts ensures t[i] < t[j] {
      assert t[i] == i as real / srate && t[j] == j as real / srate;
      DivStrictMonotone(i as real, j as real, srate);
    }
    forall i | 0 <= i < numTimePts ensures t[i] >= 0.0 {
      assert t[i] == i as real / srate;
      DivNonNegative(i as real, srate);
    }
  }

  /** `irf_pos - weight * irf_neg`. A non-finite lobe makes the difference
      non-finite, whatever the weight (`0 * nan` is `nan`). */
  function Difference(pos: Option<seq<real>>, neg: Option<seq<real>>, weight: real): (r: Option<seq<real>>)
    requires pos.Some? && neg.Some? ==> |pos.value| == |neg.value|
    ensures r.Some? <==> pos.Some? && neg.Some?
    ensures r.Some? ==> |r.value| == |pos.value|
    ensures r.Some? ==> forall k :: 0 <= k < |r.value| ==> r.value[k] + weight * neg.value[k] == pos.value[k]
  {
    if pos.None? || neg.None? then None
    else Some(seq(|pos.value|, k requires 0 <= k < |pos.value| => pos.value[k] - weight * neg.value[k]))
  }

  /** The difference-of-gammas impulse response on the time axis `t`: the
      positive lobe minus `weight` times the negative lobe, whose time
      constant is `1.5 * tau_neg`. */
  function ImpulseResponse(tr: Transcendentals, t: seq<real>, tauPos: real, tauNeg: real,
                           order: int, weight: real): (r: Option<seq<real>>)
    requires order >= 1
    ensures r.Some? ==> |r.value| == |t|
  {
    Difference(GammaPdf(tr, t, tauPos, order), GammaPdf(tr, t, 1.5 * tauNeg, order), weight)
  }

  /** A finite impulse response on a nonempty axis sums to `1 - weight`:
      each lobe sums to 1. */
  lemma ImpulseResponseSum(tr: Transcendentals, t: seq<real>, tauPos: real, tauNeg: real,
                           order: int, weight: real)
    requires order >= 1 && |t| > 0
    requires ImpulseResponse(tr, t, tauPos, tauNeg, order, weight).Some?
    ensures Sum(ImpulseResponse(tr, t, tauPos, tauNeg, order, weight).value) == 1.0 - weight
  {
    var pos := GammaPdf(tr, t, tauPos, order).value;
    var neg := GammaPdf(tr, t, 1.5 * tauNeg, order).value;
    var irf := ImpulseResponse(tr, t, tauPos, tauNeg, order, weight).value;
    assert Sum(pos) == 1.0 && Sum(neg) == 1.0;
    assert forall k :: 0 <= k < |pos| ==> irf[k] == pos[k] - weight * neg[k];
    SumLinear(pos, neg, weight, irf);
  }

  /** With weight 0 the impulse response is the positive lobe. */
  lemma ImpulseResponseWeightZero(tr: Transcendentals, t: seq<real>, tauPos: real, tauNeg: real, order: int)
    requires order >= 1
    requires ImpulseResponse(tr, t, tauPos, tauNeg, order, 0.0).Some?
    ensures ImpulseResponse(tr, t, tauPos, tauNeg, order, 0.0) == GammaPdf(tr, t, tauPos, order)
  {
    var pos := GammaPdf(tr, t, tauPos, order).value;
    var neg := GammaPdf(tr, t, 1.5 * tauNeg, order).value;
    var irf := ImpulseResponse(tr, t, tauPos, tauNeg, order, 0.0).value;
    assert forall k :: 0 <= k < |pos| ==> irf[k] + 0.0 * neg[k] == pos[k];
    assert irf == pos;
  }

  /** The constructor `Model_Groen_et_al(stim, sample_rate, tau_pos, ...)`.
      Only the length of `stim` is used. */
  function NewGroen(tr: Transcendentals, stim: seq<real>, srate: real,
                    tauPos: real, tauNeg: real, nIrf: real, weight: real, shift: real,
                    scale: real, n: real, sigma: real, tauA: real): (m: Groen)
    requires srate > 0.0
    ensures m.Valid()
    ensures m.numTimePts == |stim| && m.srate == srate
    ensures m.tauPos == tauPos && m.tauNeg == tauNeg && m.weight == weight && m.shift == shift
    ensures m.scale == scale && m.n == n && m.sigma == sigma && m.tauA == tauA
    ensures m.nIrf >= 1 && (RoundHalfEven(nIrf) >= 1 ==> m.nIrf == RoundHalfEven(nIrf))
  {
    var order := ClampOrder(nIrf);
    var t := TimeAxis(|stim|, srate);
    Groen(tauPos, tauNeg, order, weight, shift, scale, n, sigma, tauA,
          |stim|, srate, t,
          ImpulseResponse(tr, t, tauPos, tauNeg, order, weight),
          ExponentialDecay(tr, t, tauA))
  }

  /** A raw gamma sample is positive at a positive time, and at time 0 when
      the order is 1 (`0**0 == 1`). */
  lemma GammaRawSamplePositive(tr: Transcendentals, t: seq<real>, tau: real, order: int, p: nat)
    requires tr.Valid()
    requires tau > 0.0 && order >= 1 && p < |t|
    requires t[p] > 0.0 || (t[p] == 0.0 && order == 1)
    ensures GammaRaw(tr, t, tau, order)[p] > 0.0
  {
    var x := t[p] / tau;
    var pw := Pow(x, order - 1);
    if t[p] > 0.0 {
      DivPositive(t[p], tau);
    } else {
      assert pw == 1.0;
    }
    var e := tr.exp(-t[p] / tau);
    var f := Factorial(order - 1) as real;
    assert GammaRaw(tr, t, tau, order)[p] == pw * e / (tau * f);
    QuotientPositive(pw, e, tau, f);
  }

  lemma QuotientPositive(a: real, b: real, c: real, d: real)
    requires a > 0.0 && b > 0.0 && c > 0.0 && d > 0.0
    ensures a * b / (c * d) > 0.0
  {
    MulPositive(a, b);
    MulPositive(c, d);
    DivPositive(Mul(a, b), Mul(c, d));
  }

  /** On the model's time axis with a positive time constant, the gamma
      kernel is non-finite in exactly one case: a single sample (time 0)
      with order at least 2, whose only raw value `0**(n-1) * ...` is 0. */
  lemma GammaPdfOnTimeAxis(tr: Transcendentals, numTimePts: nat, srate: real, tau: real, order: int)
    requires tr.Valid()
    requires srate > 0.0 && tau > 0.0 && order >= 1
    ensures GammaPdf(tr, TimeAxis(numTimePts, srate), tau, order).None? <==> numTimePts == 1 && order >= 2
  {
    var t := TimeAxis(numTimePts, srate);
    if numTimePts > 0 {
      var y := GammaRaw(tr, t, tau, order);
      if numTimePts == 1 && order >= 2 {
        assert Pow(t[0] / tau, order - 1) == 0.0;
        assert y[0] == 0.0;
        assert Sum(y) == Sum(y[..0]) + y[0];
      } else {
        TimeAxisIncreasing(numTimePts, srate);
        GammaRawNonNegative(tr, t, tau, order);
        var p := if order == 1 then 0 else 1;
        GammaRawSamplePositive(tr, t, tau, order, p);
        SumPositive(y, p);
      }
    }
  }

  /** The kernels of a model built with positive time constants: the pooling
      kernel is always finite, and the impulse response is finite except for
      a one-sample stimulus with order at least 2. */
  lemma KernelsFinite(tr: Transcendentals, stim: seq<real>, srate: real,
                      tauPos: real, tauNeg: real, nIrf: real, weight: real, shift: real,
                      scale: real, n: real, sigma: real, tauA: real)
    requires tr.Valid()
    requires srate > 0.0 && tauPos > 0.0 && tauNeg > 0.0 && tauA > 0.0
    ensures var m := NewGroen(tr, stim, srate, tauPos, tauNeg, nIrf, weight, shift, scale, n, sigma, tauA);
      && m.normIrf.Some?
      && (m.irf.Some? <==> !(|stim| == 1 && m.nIrf >= 2))
  {
    var m := NewGroen(tr, stim, srate, tauPos, tauNeg, nIrf, weight, shift, scale, n, sigma, tauA);
    var order := ClampOrder(nIrf);
    var t := TimeAxis(|stim|, srate);
    assert m.nIrf == order && m.irf == ImpulseResponse(tr, t, tauPos, tauNeg, order, weight);
    assert m.normIrf == ExponentialDecay(tr, t, tauA);
    GammaPdfOnTimeAxis(tr, |stim|, srate, tauPos, order);
    GammaPdfOnTimeAxis(tr, |stim|, srate, 1.5 * tauNeg, order);
    ExponentialDecayPositive(tr, t, tauA);
  }

  /** The impulse response of a nonempty model sums to `1 - weight`: the
      positive lobe sums to 1 and the negative lobe, scaled by the weight,
      to `weight`. */
  lemma IrfSum(tr: Transcendentals, stim: seq<real>, srate: real,
               tauPos: real, tauNeg: real, nIrf: real, weight: real, shift: real,
               scale: real, n: real, sigma: real, tauA: real)
    requires srate > 0.0 && |stim| > 0
    requires NewGroen(tr, stim, srate, tauPos, tauNeg, nIrf, weight, shift, scale, n, sigma, tauA).irf.Some?
    ensures Sum(NewGroen(tr, stim, srate, tauPos, tauNeg, nIrf, weight, shift, scale, n, sigma, tauA).irf.value)
      == 1.0 - weight
  {
    var m := NewGroen(tr, stim, srate, tauPos, tauNeg, nIrf, weight, shift, scale, n, sigma, tauA);
    assert m.irf == ImpulseResponse(tr, m.t, tauPos, tauNeg, m.nIrf, weight);
    ImpulseResponseSum(tr, m.t, tauPos, tauNeg, m.nIrf, weight);
  }

  /** With weight 0 the impulse response is the positive gamma lobe alone. */
  lemma IrfWeightZero(tr: Transcendentals, stim: seq<real>, srate: real,
                      tauPos: real, tauNeg: real, nIrf: real, shift: real,
                      scale: real, n: real, sigma: real, tauA: real)
    requires srate > 0.0
    requires NewGroen(tr, stim, srate, tauPos, tauNeg, nIrf, 0.0, shift, scale, n, sigma, tauA).irf.Some?
    ensures var m := NewGroen(tr, stim, srate, tauPos, tauNeg, nIrf, 0.0, shift, scale, n, sigma, tauA);
      m.irf == GammaPdf(tr, m.t, tauPos, m.nIrf)
  {
    var m := NewGroen(tr, stim, srate, tauPos, tauNeg, nIrf, 0.0, shift, scale, n, sigma, tauA);
    assert m.irf == ImpulseResponse(tr, m.t, tauPos, tauNeg, m.nIrf, 0.0);
    ImpulseResponseWeightZero(tr, m.t, tauPos, tauNeg, m.nIrf);
  }

  /** The pooling kernel of a model with a positive adaptation time constant
      is positive and never increases from one sample to a later one. */
  lemma NormIrfDecreasing(tr: Transcendentals, stim: seq<real>, srate: real,
                          tauPos: real, tauNeg: real, nIrf: real, weight: real, shift: real,
                          scale: real, n: real, sigma: real, tauA: real)
    requires tr.Valid()
    requires srate > 0.0 && tauA > 0.0
    ensures var m := NewGroen(tr, stim, srate, tauPos, tauNeg, nIrf, weight, shift, scale, n, sigma, tauA);
      && m.normIrf.Some?
      && (forall k :: 0 <= k < |stim| ==> m.normIrf.value[k] > 0.0)
      && (forall i, j :: 0 <= i <= j < |stim| ==> m.normIrf.value[i] >= m.normIrf.value[j])
  {
    var t := TimeAxis(|stim|, srate);
    ExponentialDecayPositive(tr, t, tauA);
    TimeAxisIncreasing(|stim|, srate);
    assert forall i, j :: 0 <= i <= j < |stim| ==> t[i] <= t[j];
  }

  /** `n` zeros. */
  function Zeros(n: nat): (z: seq<real>)
    ensures |z| == n && forall k :: 0 <= k < n ==> z[k] == 0.0
  {
    seq(n, k => 0.0)
  }

  function Min(a: int, b: int): int
  {
    if a < b then a else b
  }

  /** `response_shift`: pad `ShiftSamples(shift, srate)` zeros on the left, keep the
      first `numtimepts` samples. `np.pad` refuses a negative width, so the
      delay must round to a non-negative number of samples. */
  function ResponseShift(m: Groen, input: seq<real>): (r: seq<real>)
    requires m.Valid() && ShiftSamples(m.shift, m.srate) >= 0
    ensures |r| == Min(m.numTimePts, ShiftSamples(m.shift, m.srate) + |input|)
    ensures forall k :: 0 <= k < |r| && k < ShiftSamples(m.shift, m.srate) ==> r[k] == 0.0
    ensures forall k :: ShiftSamples(m.shift, m.srate) <= k < |r| ==> r[k] == input[k - ShiftSamples(m.shift, m.srate)]
    ensures ShiftSamples(m.shift, m.srate) == 0 && |input| >= m.numTimePts ==> r == input[..m.numTimePts]
    ensures ShiftSamples(m.shift, m.srate) >= m.numTimePts ==> r == Zeros(m.numTimePts)
  {
    var padded := Zeros(ShiftSamples(m.shift, m.srate)) + input;
    padded[..Min(m.numTimePts, |padded|)]
  }

  /** `lin`: the input convolved with the impulse response, truncated to
      `numtimepts` samples (`np.convolve` refuses an empty operand). */
  function Lin(m: Groen, input: seq<real>): (r: Option<seq<real>>)
    requires m.Valid() && |input| >= 1 && m.numTimePts >= 1
    ensures r.Some? <==> m.irf.Some?
    ensures r.Some? ==> |r.value| == m.numTimePts
  {
    if m.irf.None? then None else Some(TruncatedConvolve(input, m.irf.value, m.numTimePts))
  }

  /** `rectf`: full-wave rectification. */
  function Rectf(input: seq<real>): (r: seq<real>)
    ensures |r| == |input|
    ensures forall k :: 0 <= k < |r| ==> r[k] >= 0.0 && (r[k] == input[k] || r[k] == -input[k])
  {
    seq(|input|, k requires 0 <= k < |input| => Abs(input[k]))
  }

  lemma RectfIdempotent(input: seq<real>)
    ensures Rectf(Rectf(input)) == Rectf(input)
  {
  }

  /** `exp`: every sample raised to the power `n`, in floating point. On a
      non-negative input (as `rectf` provides) it is never NaN, and infinite
      exactly at zero samples when `n` is negative. */
  function Exp(tr: Transcendentals, m: Groen, input: seq<real>): (r: seq<Float>)
    ensures |r| == |input|
    ensures forall k :: 0 <= k < |r| && input[k] >= 0.0 ==> r[k] != NaN
    ensures forall k :: 0 <= k < |r| ==> (r[k] == Infinity <==> input[k] == 0.0 && m.n < 0.0)
    ensures tr.Valid() ==> forall k :: 0 <= k < |r| && input[k] >= 0.0 && r[k].Finite? ==> r[k].value >= 0.0
  {
    seq(|input|, k requires 0 <= k < |input| => FloatPow(tr, input[k], m.n))
  }

  /** `sigma**n + abs(signal)**n`, the normalisation denominator. With a
      positive semi-saturation constant each sample is a positive number, or
      infinite where the signal is zero and `n` negative. */
  function Denominator(tr: Transcendentals, m: Groen, signal: seq<real>): (d: seq<Float>)
    ensures |d| == |signal|
    ensures tr.Valid() && m.sigma > 0.0 ==> forall k :: 0 <= k < |d| ==>
      (d[k] == Infinity <==> signal[k] == 0.0 && m.n < 0.0) &&
      (d[k] != Infinity ==> d[k].Finite? && d[k].value > 0.0)
  {
    seq(|signal|, k requires 0 <= k < |signal| =>
      FloatAdd(FloatPow(tr, m.sigma, m.n), FloatPow(tr, Abs(signal[k]), m.n)))
  }

  /** The denominator with a positive semi-saturation constant, sample by
      sample. */
  lemma DenominatorSample(tr: Transcendentals, m: Groen, signal: seq<real>, k: nat)
    requires tr.Valid() && m.sigma > 0.0 && k < |signal|
    ensures Denominator(tr, m, signal)[k] == Infinity <==> signal[k] == 0.0 && m.n < 0.0
    ensures Denominator(tr, m, signal)[k] != Infinity ==>
      Denominator(tr, m, signal)[k].Finite? && Denominator(tr, m, signal)[k].value > 0.0
  {
    var p := FloatPow(tr, m.sigma, m.n);
    var q := FloatPow(tr, Abs(signal[k]), m.n);
    FloatPowNonNegative(tr, Abs(signal[k]), m.n);
    assert p.Finite? && p.value > 0.0;
    assert Denominator(tr, m, signal)[k] == FloatAdd(p, q);
  }

  /** `a` has the signs of the finite values `b`, sample by sample. */
  ghost predicate SameSigns(a: seq<real>, b: seq<Float>)
  {
    && |a| == |b|
    && (forall k :: 0 <= k < |a| ==> b[k].Finite?)
    && (forall k :: 0 <= k < |a| ==> (a[k] > 0.0 <==> b[k].value > 0.0))
    && (forall k :: 0 <= k < |a| ==> (a[k] < 0.0 <==> b[k].value < 0.0))
    && (forall k :: 0 <= k < |a| ==> (a[k] == 0.0 <==> b[k].value == 0.0))
  }

  /** `num / den`, elementwise in floating point. The array is kept only
      when every quotient is finite. */
  function Divide(num: seq<Float>, den: seq<Float>): (r: Option<seq<real>>)
    requires |num| == |den|
    ensures r.Some? <==> forall k :: 0 <= k < |den| ==> FloatDiv(num[k], den[k]).Some?
    ensures r.Some? ==> |r.value| == |num| && forall k :: 0 <= k < |num| ==> FloatDiv(num[k], den[k]) == Some(r.value[k])
  {
    if exists k :: 0 <= k < |den| && FloatDiv(num[k], den[k]).None? then None
    else Some(seq(|num|, k requires 0 <= k < |num| => FloatDiv(num[k], den[k]).value))
  }

  /** Finite numerators over positive denominators give quotients with the
      numerators' signs; over positive or infinite denominators, non-negative
      numerators give non-negative quotients. */
  lemma DivideSigns(num: seq<Float>, den: seq<Float>)
    requires |num| == |den|
    requires forall k :: 0 <= k < |num| ==> num[k].Finite?
    requires forall k :: 0 <= k < |den| ==> den[k] == Infinity || (den[k].Finite? && den[k].value > 0.0)
    ensures Divide(num, den).Some?
    ensures (forall k :: 0 <= k < |den| ==> den[k].Finite?) ==> SameSigns(Divide(num, den).value, num)
    ensures forall k :: 0 <= k < |num| && num[k].value >= 0.0 ==> Divide(num, den).value[k] >= 0.0
  {
    var r := Divide(num, den).value;
    forall k | 0 <= k < |num|
      ensures den[k].Finite? ==> (r[k] > 0.0 <==> num[k].value > 0.0) && (r[k] < 0.0 <==> num[k].value < 0.0)
      ensures num[k].value >= 0.0 ==> r[k] >= 0.0
    {
      if den[k].Finite? {
        assert r[k] * den[k].value == num[k].value;
        SignOfQuotient(r[k], den[k].value, num[k].value);
      }
    }
  }

  lemma SignOfQuotient(q: real, d: real, x: real)
    requires d > 0.0 && q * d == x
    ensures q > 0.0 <==> x > 0.0
    ensures q < 0.0 <==> x < 0.0
  {
    if q > 0.0 {
      MulPositive(q, d);
    } else if q < 0.0 {
      MulPositive(-q, d);
    }
  }

  /** `norm`: static divisive normalisation by the instantaneous linear
      response. With a positive semi-saturation constant it is finite exactly
      when every numerator is, it is zero where the denominator is infinite,
      and with `n >= 0` it has the numerators' signs. */
  function Norm(tr: Transcendentals, m: Groen, input: seq<Float>, linrsp: seq<real>): (r: Option<seq<real>>)
    requires |input| == |linrsp|
    ensures r.Some? ==> |r.value| == |input|
    ensures r.Some? ==> forall k :: 0 <= k < |input| ==>
      FloatDiv(input[k], Denominator(tr, m, linrsp)[k]) == Some(r.value[k])
    ensures tr.Valid() && m.sigma > 0.0 ==> (r.Some? <==> forall k :: 0 <= k < |input| ==> input[k].Finite?)
    ensures tr.Valid() && m.sigma > 0.0 && r.Some? ==>
      forall k :: 0 <= k < |input| && linrsp[k] == 0.0 && m.n < 0.0 ==> r.value[k] == 0.0
    ensures tr.Valid() && m.sigma > 0.0 && m.n >= 0.0 && r.Some? ==> SameSigns(r.value, input)
  {
    DivideByDenominator(tr, m, input, linrsp);
    Divide(input, Denominator(tr, m, linrsp))
  }

  /** The division both normalisations perform, with a positive
      semi-saturation constant. */
  lemma DivideByDenominator(tr: Transcendentals, m: Groen, input: seq<Float>, signal: seq<real>)
    requires |input| == |signal|
    ensures tr.Valid() && m.sigma > 0.0 ==>
      (Divide(input, Denominator(tr, m, signal)).Some? <==> forall k :: 0 <= k < |input| ==> input[k].Finite?)
    ensures tr.Valid() && m.sigma > 0.0 && Divide(input, Denominator(tr, m, signal)).Some? ==>
      forall k :: 0 <= k < |input| && signal[k] == 0.0 && m.n < 0.0 ==> Divide(input, Denominator(tr, m, signal)).value[k] == 0.0
    ensures tr.Valid() && m.sigma > 0.0 && Divide(input, Denominator(tr, m, signal)).Some? && m.n >= 0.0 ==>
      SameSigns(Divide(input, Denominator(tr, m, signal)).value, input)
    ensures tr.Valid() && m.sigma > 0.0 && Divide(input, Denominator(tr, m, signal)).Some? ==>
      forall k :: 0 <= k < |input| && input[k].value >= 0.0 ==> Divide(input, Denominator(tr, m, signal)).value[k] >= 0.0
  {
    if tr.Valid() && m.sigma > 0.0 {
      var den := Denominator(tr, m, signal);
      forall k | 0 <= k < |den|
        ensures (den[k] == Infinity <==> signal[k] == 0.0 && m.n < 0.0)
        ensures den[k] == Infinity || (den[k].Finite? && den[k].value > 0.0)
      {
        DenominatorSample(tr, m, signal, k);
      }
      if forall k :: 0 <= k < |input| ==> input[k].Finite? {
        DivideSigns(input, den);
      }
    }
  }

  /** The pooled linear response of `norm_delay`: `linrsp` convolved with
      the pooling kernel, truncated to `numtimepts` samples. */
  function Pool(m: Groen, linrsp: seq<real>): (r: Option<seq<real>>)
    requires m.Valid() && |linrsp| >= 1 && m.numTimePts >= 1
    ensures r.Some? <==> m.normIrf.Some?
    ensures r.Some? ==> |r.value| == m.numTimePts
  {
    if m.normIrf.None? then None else Some(TruncatedConvolve(linrsp, m.normIrf.value, m.numTimePts))
  }

  /** `norm_delay`: divisive normalisation by the pooled linear response.
      With a finite pooling kernel and a positive semi-saturation constant it
      is finite exactly when every numerator is, it is zero where the pooled
      response is zero and `n` negative, and with `n >= 0` it has the
      numerators' signs. */
  function NormDelay(tr: Transcendentals, m: Groen, input: seq<Float>, linrsp: seq<real>): (r: Option<seq<real>>)
    requires m.Valid() && |linrsp| >= 1 && m.numTimePts >= 1 && |input| == m.numTimePts
    ensures r.Some? ==> m.normIrf.Some? && |r.value| == m.numTimePts
    ensures r.Some? ==> forall k :: 0 <= k < |input| ==>
      FloatDiv(input[k], Denominator(tr, m, Pool(m, linrsp).value)[k]) == Some(r.value[k])
    ensures tr.Valid() && m.sigma > 0.0 && m.normIrf.Some? ==>
      (r.Some? <==> forall k :: 0 <= k < |input| ==> input[k].Finite?)
    ensures tr.Valid() && m.sigma > 0.0 && r.Some? ==>
      forall k :: 0 <= k < |input| && Pool(m, linrsp).value[k] == 0.0 && m.n < 0.0 ==> r.value[k] == 0.0
    ensures tr.Valid() && m.sigma > 0.0 && m.n >= 0.0 && r.Some? ==> SameSigns(r.value, input)
    ensures tr.Valid() && m.sigma > 0.0 && r.Some? ==>
      forall k :: 0 <= k < |input| && input[k].value >= 0.0 ==> r.value[k] >= 0.0
  {
    match Pool(m, linrsp)
    case None => None
    case Some(pool) =>
      DivideByDenominator(tr, m, input, pool);
      Divide(input, Denominator(tr, m, pool))
  }
}
