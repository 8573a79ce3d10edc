/**
 The kernel builders: the gamma-shaped impulse response `gammaPDF` and the
 exponential-decay pooling kernel `exponential_decay`, each normalised to
 unit sum by dividing by its own sum.
 */
module ResponseFunction {
  import opened Numerics
  import opened Signals

  /** `y / np.sum(y)`. A nonempty `y` whose sum is zero divides by zero, so
      every sample comes out NaN or infinite; an empty `y` stays empty. */
  function Normalise(y: seq<real>): (r: Option<seq<real>>)
    ensures r.None? <==> |y| > 0 && Sum(y) == 0.0
    ensures r.Some? ==> |r.value| == |y|
    ensures r.Some? ==> forall i :: 0 <= i < |y| ==> r.value[i] * Sum(y) == y[i]
    ensures r.Some? && |y| > 0 ==> Sum(r.value) == 1.0
  {
    if |y| == 0 then Some([])
    else if Sum(y) == 0.0 then None
    else
      var q := seq(|y|, i requires 0 <= i < |y| => y[i] / Sum(y));
      SumDivided(y, Sum(y), q);
      assert Sum(y) / Sum(y) == 1.0;
      Some(q)
  }

  /** The samples of `(t/tau)**(n - 1) * np.exp(-t/tau) / (tau * factorial(n - 1))`
      before normalisation. */
  function GammaRaw(tr: Transcendentals, t: seq<real>, tau: real, n: int): (y: seq<real>)
    requires tau != 0.0 && n >= 1
    ensures |y| == |t|
  {
    seq(|t|, i requires 0 <= i < |t| =>
      Pow(t[i] / tau, n - 1) * tr.exp(-t[i] / tau) / (tau * Factorial(n - 1) as real))
  }

  /** `gammaPDF(t, tau, n)`. The order must be at least 1, as
      `math.factorial(n - 1)` refuses a negative argument. */
  function GammaPdf(tr: Transcendentals, t: seq<real>, tau: real, n: int): (r: Option<seq<real>>)
    requires n >= 1
    ensures r.Some? ==> |r.value| == |t|
    ensures r.Some? && |t| > 0 ==> Sum(r.value) == 1.0
    ensures |t| > 0 && tau == 0.0 ==> r.None?
  {
    if |t| == 0 then Some([])
    else if tau == 0.0 then None
    else Normalise(GammaRaw(tr, t, tau, n))
  }

  lemma DivNonNegative(a: real, b: real)
    requires a >= 0.0 && b > 0.0
    ensures a / b >= 0.0
  {
  }

  lemma DivPositive(a: real, b: real)
    requires a > 0.0 && b > 0.0
    ensures a / b > 0.0
  {
  }

  lemma MulNonNegative(a: real, b: real)
    requires a >= 0.0 && b >= 0.0
    ensures a * b >= 0.0
  {
  }

  /** With a positive time constant and non-negative times, every raw
      gamma sample is non-negative. */
  lemma GammaRawNonNegative(tr: Transcendentals, t: seq<real>, tau: real, n: int)
    requires tr.Valid()
    requires tau > 0.0 && n >= 1
    requires forall i :: 0 <= i < |t| ==> t[i] >= 0.0
    ensures forall i :: 0 <= i < |t| ==> GammaRaw(tr, t, tau, n)[i] >= 0.0
  {
    var y := GammaRaw(tr, t, tau, n);
    forall i | 0 <= i < |t| ensures y[i] >= 0.0 {
      DivNonNegative(t[i], tau);
      var p := Pow(t[i] / tau, n - 1);
      var e := tr.exp(-t[i] / tau);
      MulNonNegative(p, e);
      MulPositive(tau, Factorial(n - 1) as real);
      DivNonNegative(p * e, tau * Factorial(n - 1) as real);
    }
  }

  /** The normalised gamma kernel is non-negative wherever it is finite. */
  lemma GammaPdfNonNegative(tr: Transcendentals, t: seq<real>, tau: real, n: int)
    requires tr.Valid()
    requires tau > 0.0 && n >= 1
    requires forall i :: 0 <= i < |t| ==> t[i] >= 0.0
    requires GammaPdf(tr, t, tau, n).Some?
    ensures forall i :: 0 <= i < |t| ==> GammaPdf(tr, t, tau, n).value[i] >= 0.0
  {
    if |t| > 0 {
      var y := GammaRaw(tr, t, tau, n);
      GammaRawNonNegative(tr, t, tau, n);
      SumNonNegative(y);
      var r := GammaPdf(tr, t, tau, n).value;
      forall i | 0 <= i < |t| ensures r[i] >= 0.0 {
        DivNonNegative(y[i], Sum(y));
      }
    }
  }

  /** The samples of `np.exp(-t/tau)` before normalisation. */
  function DecayRaw(tr: Transcendentals, t: seq<real>, tau: real): (y: seq<real>)
    requires tau != 0.0
    ensures |y| == |t|
  {
    seq(|t|, i requires 0 <= i < |t| => tr.exp(-t[i] / tau))
  }

  /** `exponential_decay(t, tau)`. */
  function ExponentialDecay(tr: Transcendentals, t: seq<real>, tau: real): (r: Option<seq<real>>)
    ensures r.Some? ==> |r.value| == |t|
    ensures r.Some? && |t| > 0 ==> Sum(r.value) == 1.0
    ensures |t| > 0 && tau == 0.0 ==> r.None?
  {
    if |t| == 0 then Some([])
    else if tau == 0.0 then None
    else Normalise(DecayRaw(tr, t, tau))
  }

  /** Every raw decay sample is positive and, for a positive time constant,
      a later time never gets a larger raw sample. */
  lemma DecayRawShape(tr: Transcendentals, t: seq<real>, tau: real)
    requires tr.Valid()
    requires tau != 0.0
    ensures forall i :: 0 <= i < |t| ==> DecayRaw(tr, t, tau)[i] > 0.0
    ensures tau > 0.0 ==> forall i, j :: 0 <= i < |t| && 0 <= j < |t| && t[i] <= t[j] ==>
      DecayRaw(tr, t, tau)[i] >= DecayRaw(tr, t, tau)[j]
  {
    var y := DecayRaw(tr, t, tau);
    if tau > 0.0 {
      forall i, j | 0 <= i < |t| && 0 <= j < |t| && t[i] <= t[j] ensures y[i] >= y[j] {
        DivMonotone(t[i], t[j], tau);
        assert -t[j] / tau <= -t[i] / tau;
      }
    }
  }

  /** Every raw sample is positive, so the kernel is finite for any nonzero
      time constant. With a positive time constant it is positive and does
      not increase along time: a later time never gets a larger weight. */
  lemma ExponentialDecayPositive(tr: Transcendentals, t: seq<real>, tau: real)
    requires tr.Valid()
    requires tau != 0.0
    ensures ExponentialDecay(tr, t, tau).Some?
    ensures tau > 0.0 ==> forall i :: 0 <= i < |t| ==> ExponentialDecay(tr, t, tau).value[i] > 0.0
    ensures tau > 0.0 ==> forall i, j :: 0 <= i < |t| && 0 <= j < |t| && t[i] <= t[j] ==>
      ExponentialDecay(tr, t, tau).value[i] >= ExponentialDecay(tr, t, tau).value[j]
  {
    if |t| > 0 {
      var y := DecayRaw(tr, t, tau);
      DecayRawShape(tr, t, tau);
      SumPositive(y, 0);
      var s := Sum(y);
      var r := ExponentialDecay(tr, t, tau).value;
      assert forall i :: 0 <= i < |t| ==> r[i] == y[i] / s;
      if tau > 0.0 {
        forall i | 0 <= i < |t| ensures r[i] > 0.0 {
          DivPositive(y[i], s);
        }
        forall i, j | 0 <= i < |t| && 0 <= j < |t| && t[i] <= t[j] ensures r[i] >= r[j] {
          DivMonotone(y[j], y[i], s);
        }
      }
    }
  }

  lemma DivMonotone(a: real, b: real, c: real)
    requires a <= b && c > 0.0
    ensures a / c <= b / c
  {
  }

  lemma DivStrictMonotone(a: real, b: real, c: real)
    requires a < b && c > 0.0
    ensures a / c < b / c
  {
  }
}
