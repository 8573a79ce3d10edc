/**
 The least-squares objective the fitter minimises: `compute_model` unpacks a
 parameter vector, builds a model and runs its stages in the fixed order
 shift, lin, rectf, exp, norm_delay, scale; `objective_function` adds up the
 squared residuals of every simulated row against its data row.
 */
module Objective {
  import opened Numerics
  import opened Signals
  import opened GroenModel

  /** The parameters of the 'groen' variant, by name. */
  datatype GroenParams = GroenParams(
    tauPos: real, tauNeg: real, nIrf: real, weight: real, shift: real,
    scale: real, n: real, sigma: real, tauA: real)

  /** `params[0..8]` as `compute_model` reads them. */
  function Unpack(params: seq<real>): (p: GroenParams)
    requires |params| >= 9
    ensures Pack(p) == params[..9]
  {
    GroenParams(params[0], params[1], params[2], params[3], params[4],
                params[5], params[6], params[7], params[8])
  }

  /** The fitter's parameter vector `x0` (and its bound vectors), built from
      named values. */
  function Pack(p: GroenParams): (params: seq<real>)
    ensures |params| == 9
  {
    [p.tauPos, p.tauNeg, p.nIrf, p.weight, p.shift, p.scale, p.n, p.sigma, p.tauA]
  }

  /** The fitter builds its vector in the order `compute_model` reads it. */
  lemma UnpackPack(p: GroenParams)
    ensures Unpack(Pack(p)) == p
  {
  }

  /** Only the first nine entries of a vector are read. */
  lemma PackUnpack(params: seq<real>)
    requires |params| >= 9
    ensures Pack(Unpack(params)) == params[..9]
  {
  }

  /** What one call of `compute_model` needs: nine parameters, a positive
      sample rate, a nonempty stimulus (`np.convolve` refuses an empty
      operand) and a delay of a non-negative number of samples (`np.pad`
      refuses a negative width). */
  ghost predicate Runnable(params: seq<real>, stim: seq<real>, srate: real)
  {
    && |params| >= 9
    && srate > 0.0
    && |stim| >= 1
    && ShiftSamples(params[4], srate) >= 0
  }

  /** `signal * scale`: the response gain. */
  function Scaled(signal: seq<real>, scale: real): (r: seq<real>)
    ensures |r| == |signal|
    ensures scale == 0.0 ==> forall k :: 0 <= k < |r| ==> r[k] == 0.0
    ensures scale >= 0.0 && (forall k :: 0 <= k < |signal| ==> signal[k] >= 0.0) ==>
      forall k :: 0 <= k < |r| ==> r[k] >= 0.0
  {
    seq(|signal|, k requires 0 <= k < |signal| => signal[k] * scale)
  }

  /** The stages `compute_model` runs on a built model, in its fixed order:
      shift, lin, rectf, exp, norm_delay, then the gain. Always the delayed
      normalisation, never the static `norm`. */
  function Simulate(tr: Transcendentals, m: Groen, stim: seq<real>): (r: Option<seq<real>>)
    requires m.Valid() && ShiftSamples(m.shift, m.srate) >= 0
    requires |stim| >= 1 && m.numTimePts == |stim|
    ensures r.Some? ==> |r.value| == |stim|
    ensures r.Some? && m.scale == 0.0 ==> forall k :: 0 <= k < |stim| ==> r.value[k] == 0.0
  {
    var stimShift := ResponseShift(m, stim);
    match Lin(m, stimShift)
    case None => None
    case Some(linear) =>
      var linearRectfExp := Exp(tr, m, Rectf(linear));
      match NormDelay(tr, m, linearRectfExp, linear)
      case None => None
      case Some(normed) => Some(Scaled(normed, m.scale))
  }

  /** The model `compute_model` builds from a parameter vector. */
  function ModelFor(tr: Transcendentals, stim: seq<real>, srate: real, params: seq<real>): (m: Groen)
    requires |params| >= 9 && srate > 0.0
    ensures m.Valid() && m.numTimePts == |stim|
    ensures m.shift == params[4] && m.srate == srate && m.scale == params[5] && m.n == params[6] && m.sigma == params[7]
  {
    var p := Unpack(params);
    NewGroen(tr, stim, srate, p.tauPos, p.tauNeg, p.nIrf, p.weight, p.shift, p.scale, p.n, p.sigma, p.tauA)
  }

  /** `compute_model(stim, sample_rate, params, 'groen')`. */
  function ComputeModel(tr: Transcendentals, stim: seq<real>, srate: real, params: seq<real>): (r: Option<seq<real>>)
    requires Runnable(params, stim, srate)
    ensures r.Some? ==> |r.value| == |stim|
    ensures r.Some? && params[5] == 0.0 ==> forall k :: 0 <= k < |stim| ==> r.value[k] == 0.0
  {
    Simulate(tr, ModelFor(tr, stim, srate, params), stim)
  }

  /** The built model depends on the stimulus only through its length. */
  lemma ModelForLength(tr: Transcendentals, stim1: seq<real>, stim2: seq<real>, srate: real, params: seq<real>)
    requires |params| >= 9 && srate > 0.0 && |stim1| == |stim2|
    ensures ModelFor(tr, stim1, srate, params) == ModelFor(tr, stim2, srate, params)
  {
  }

  /** With a positive semi-saturation constant and a non-negative gain a
      finite simulation is never negative: `rectf` makes the numerator
      non-negative and the denominator is positive or infinite. */
  lemma ComputeModelNonNegative(tr: Transcendentals, stim: seq<real>, srate: real, params: seq<real>)
    requires tr.Valid()
    requires Runnable(params, stim, srate)
    requires params[7] > 0.0 && params[5] >= 0.0
    requires ComputeModel(tr, stim, srate, params).Some?
    ensures forall k :: 0 <= k < |stim| ==> ComputeModel(tr, stim, srate, params).value[k] >= 0.0
  {
    var m := ModelFor(tr, stim, srate, params);
    var linear := Lin(m, ResponseShift(m, stim)).value;
    var e := Exp(tr, m, Rectf(linear));
    var normed := NormDelay(tr, m, e, linear).value;
    assert forall k :: 0 <= k < |e| ==> e[k].Finite? && e[k].value >= 0.0;
    assert forall k :: 0 <= k < |normed| ==> normed[k] >= 0.0;
  }

  /** With a positive semi-saturation constant the staged simulation is
      finite exactly when both kernels are and, for a negative exponent `n`,
      no linear-response sample is zero (`0 ** n` is infinite there). */
  lemma SimulateFinite(tr: Transcendentals, m: Groen, stim: seq<real>)
    requires tr.Valid() && m.Valid() && ShiftSamples(m.shift, m.srate) >= 0 && m.sigma > 0.0
    requires |stim| >= 1 && m.numTimePts == |stim|
    ensures Simulate(tr, m, stim).Some? <==>
      && m.irf.Some? && m.normIrf.Some?
      && (m.n >= 0.0 || forall k :: 0 <= k < |stim| ==> Lin(m, ResponseShift(m, stim)).value[k] != 0.0)
  {
    if m.irf.Some? && m.normIrf.Some? {
      var linear := Lin(m, ResponseShift(m, stim)).value;
      var e := Exp(tr, m, Rectf(linear));
      assert forall k :: 0 <= k < |e| ==> (e[k].Finite? <==> !(linear[k] == 0.0 && m.n < 0.0));
    }
  }

  /** For a negative exponent, a shifted stimulus whose first sample is
      zero gives a zero first linear sample, so `0 ** n` is infinite there
      and the simulation is not finite. */
  lemma SimulateZeroStart(tr: Transcendentals, m: Groen, stim: seq<real>)
    requires tr.Valid() && m.Valid() && ShiftSamples(m.shift, m.srate) >= 0
    requires |stim| >= 1 && m.numTimePts == |stim| && m.n < 0.0
    requires stim[0] == 0.0 || ShiftSamples(m.shift, m.srate) >= 1
    ensures Simulate(tr, m, stim).None?
  {
    if m.irf.Some? {
      var shifted := ResponseShift(m, stim);
      assert shifted[0] == 0.0;
      var linear := Lin(m, shifted).value;
      LinFirstSample(m, shifted);
      var e := Exp(tr, m, Rectf(linear));
      assert e[0] == Infinity;
      assert NormDelay(tr, m, e, linear).None?;
    }
  }

  /** The first sample of `lin` is the first input sample times the first
      impulse-response sample. */
  lemma LinFirstSample(m: Groen, input: seq<real>)
    requires m.Valid() && m.irf.Some? && |input| >= 1 && m.numTimePts >= 1
    ensures Lin(m, input).value[0] == input[0] * m.irf.value[0]
  {
    assert Lin(m, input).value[0] == ConvPartial(input, m.irf.value, 0, 1);
  }

  /** With positive time constants and semi-saturation constant: for
      `n >= 0` the simulation is finite except for a one-sample stimulus with
      order `max(round(n_irf), 1)` at least 2; for `n < 0` it is not finite
      whenever its first shifted sample is zero, that is, for a delay
      that rounds to at least one sample or a stimulus starting at zero. */
  lemma ComputeModelFinite(tr: Transcendentals, stim: seq<real>, srate: real, params: seq<real>)
    requires tr.Valid()
    requires Runnable(params, stim, srate)
    requires params[0] > 0.0 && params[1] > 0.0 && params[7] > 0.0 && params[8] > 0.0
    ensures params[6] >= 0.0 ==>
      (ComputeModel(tr, stim, srate, params).Some? <==> !(|stim| == 1 && ClampOrder(params[2]) >= 2))
    ensures params[6] < 0.0 && (stim[0] == 0.0 || ShiftSamples(params[4], srate) >= 1) ==>
      ComputeModel(tr, stim, srate, params).None?
  {
    var m := ModelFor(tr, stim, srate, params);
    if params[6] >= 0.0 {
      var p := Unpack(params);
      KernelsFinite(tr, stim, srate, p.tauPos, p.tauNeg, p.nIrf, p.weight, p.shift, p.scale, p.n, p.sigma, p.tauA);
      SimulateFinite(tr, m, stim);
    } else if stim[0] == 0.0 || ShiftSamples(params[4], srate) >= 1 {
      SimulateZeroStart(tr, m, stim);
    }
  }

  /** `response_shift` is causal: output samples `0..k` depend only on input
      samples `0..k`. */
  lemma ResponseShiftCausal(m: Groen, s1: seq<real>, s2: seq<real>, k: nat)
    requires m.Valid() && ShiftSamples(m.shift, m.srate) >= 0
    requires |s1| == |s2| && AgreeUpTo(s1, s2, k)
    ensures AgreeUpTo(ResponseShift(m, s1), ResponseShift(m, s2), k)
  {
    var sft := ShiftSamples(m.shift, m.srate);
    var r1, r2 := ResponseShift(m, s1), ResponseShift(m, s2);
    forall j | 0 <= j <= k ensures At(r1, j) == At(r2, j) {
      if j < |r1| && sft <= j {
        assert At(s1, j - sft) == At(s2, j - sft);
      }
    }
  }

  /** `lin` is causal. */
  lemma LinCausal(m: Groen, s1: seq<real>, s2: seq<real>, k: nat)
    requires m.Valid() && m.irf.Some? && m.numTimePts >= 1 && |s1| >= 1 && |s2| >= 1
    requires AgreeUpTo(s1, s2, k)
    ensures AgreeUpTo(Lin(m, s1).value, Lin(m, s2).value, k)
  {
    forall j | 0 <= j <= k ensures At(Lin(m, s1).value, j) == At(Lin(m, s2).value, j) {
      if j < m.numTimePts {
        ConvolveCausal(s1, s2, m.irf.value, m.numTimePts, j);
      }
    }
  }

  /** `norm_delay` at sample `k` depends only on the numerator at `k` and on
      the linear response up to `k`. */
  lemma NormDelayCausal(tr: Transcendentals, m: Groen, e1: seq<Float>, e2: seq<Float>,
                        l1: seq<real>, l2: seq<real>, k: nat)
    requires m.Valid() && m.numTimePts >= 1 && |l1| >= 1 && |l2| >= 1
    requires |e1| == |e2| == m.numTimePts && k < m.numTimePts
    requires e1[k] == e2[k] && AgreeUpTo(l1, l2, k)
    ensures NormDelay(tr, m, e1, l1).Some? && NormDelay(tr, m, e2, l2).Some? ==>
      NormDelay(tr, m, e1, l1).value[k] == NormDelay(tr, m, e2, l2).value[k]
  {
    if m.normIrf.Some? {
      var pool1, pool2 := Pool(m, l1).value, Pool(m, l2).value;
      ConvolveCausal(l1, l2, m.normIrf.value, m.numTimePts, k);
      assert pool1[k] == pool2[k];
      assert Denominator(tr, m, pool1)[k] == Denominator(tr, m, pool2)[k];
    }
  }

  /** The stages are causal: two stimuli that agree up to sample `k` give
      the same response at sample `k` whenever both are finite. With a
      positive semi-saturation constant and `n >= 0` they are finite
      together. */
  lemma SimulateCausal(tr: Transcendentals, m: Groen, stim1: seq<real>, stim2: seq<real>, k: nat)
    requires m.Valid() && ShiftSamples(m.shift, m.srate) >= 0
    requires |stim1| >= 1 && m.numTimePts == |stim1| == |stim2| && k < |stim1|
    requires AgreeUpTo(stim1, stim2, k)
    ensures tr.Valid() && m.sigma > 0.0 && m.n >= 0.0 ==>
      (Simulate(tr, m, stim1).Some? <==> Simulate(tr, m, stim2).Some?)
    ensures Simulate(tr, m, stim1).Some? && Simulate(tr, m, stim2).Some? ==>
      Simulate(tr, m, stim1).value[k] == Simulate(tr, m, stim2).value[k]
  {
    if tr.Valid() && m.sigma > 0.0 && m.n >= 0.0 {
      SimulateFinite(tr, m, stim1);
      SimulateFinite(tr, m, stim2);
    }
    var s1, s2 := ResponseShift(m, stim1), ResponseShift(m, stim2);
    ResponseShiftCausal(m, stim1, stim2, k);
    if m.irf.Some? {
      var lin1, lin2 := Lin(m, s1).value, Lin(m, s2).value;
      LinCausal(m, s1, s2, k);
      assert At(lin1, k) == At(lin2, k);
      var e1, e2 := Exp(tr, m, Rectf(lin1)), Exp(tr, m, Rectf(lin2));
      assert e1[k] == FloatPow(tr, Abs(lin1[k]), m.n) == e2[k];
      NormDelayCausal(tr, m, e1, e2, lin1, lin2, k);
    }
  }

  /** Causality of the whole simulation: two stimuli of the same length that
      agree up to sample `k` give the same response at sample `k` whenever
      both are finite, and with `sigma > 0` and `n >= 0` they are finite
      together. */
  lemma ComputeModelCausal(tr: Transcendentals, stim1: seq<real>, stim2: seq<real>, srate: real,
                           params: seq<real>, k: nat)
    requires Runnable(params, stim1, srate) && Runnable(params, stim2, srate)
    requires |stim1| == |stim2| && k < |stim1|
    requires AgreeUpTo(stim1, stim2, k)
    ensures tr.Valid() && params[7] > 0.0 && params[6] >= 0.0 ==>
      (ComputeModel(tr, stim1, srate, params).Some? <==> ComputeModel(tr, stim2, srate, params).Some?)
    ensures ComputeModel(tr, stim1, srate, params).Some? && ComputeModel(tr, stim2, srate, params).Some? ==>
      ComputeModel(tr, stim1, srate, params).value[k] == ComputeModel(tr, stim2, srate, params).value[k]
  {
    ModelForLength(tr, stim1, stim2, srate, params);
    SimulateCausal(tr, ModelFor(tr, stim1, srate, params), stim1, stim2, k);
  }

  /** The fitter's lower bounds on the 'groen' parameter vector. */
  ghost predicate WithinLowerBounds(params: seq<real>)
  {
    && |params| >= 9
    && params[0] >= 0.001 && params[1] >= 0.001 && params[2] >= 2.0
    && params[3] >= 0.0 && params[4] >= 0.0 && params[5] >= 0.1
    && params[6] >= 0.1 && params[7] >= 0.01 && params[8] >= 0.01
  }

  /** Within the fitter's lower bounds every nonempty stimulus can be
      simulated; the order `max(round(n_irf), 1)` is then at least 2, so the
      simulation is finite exactly when the stimulus has at least two
      samples, and it is never negative. */
  lemma LowerBoundsSimulation(tr: Transcendentals, stim: seq<real>, srate: real, params: seq<real>)
    requires tr.Valid()
    requires WithinLowerBounds(params) && srate > 0.0 && |stim| >= 1
    ensures Runnable(params, stim, srate)
    ensures ComputeModel(tr, stim, srate, params).Some? <==> |stim| >= 2
    ensures ComputeModel(tr, stim, srate, params).Some? ==>
      forall k :: 0 <= k < |stim| ==> ComputeModel(tr, stim, srate, params).value[k] >= 0.0
  {
    ShiftSamplesNonNegative(params[4], srate);
    assert ClampOrder(params[2]) >= 2;
    ComputeModelFinite(tr, stim, srate, params);
    if ComputeModel(tr, stim, srate, params).Some? {
      ComputeModelNonNegative(tr, stim, srate, params);
    }
  }

  /** What `objective_function` needs: every stimulus row can be simulated,
      and there is a data row for each, of the same length. */
  ghost predicate Shaped(params: seq<real>, stim: seq<seq<real>>, data: seq<seq<real>>, srate: real)
  {
    && |params| >= 9
    && srate > 0.0
    && ShiftSamples(params[4], srate) >= 0
    && |data| >= |stim|
    && forall i :: 0 <= i < |stim| ==> |stim[i]| >= 1 && |data[i]| == |stim[i]|
  }

  /** The simulated response of every stimulus row. */
  function SimulateRows(tr: Transcendentals, params: seq<real>, stim: seq<seq<real>>, srate: real)
    : (runs: seq<Option<seq<real>>>)
    requires |params| >= 9 && srate > 0.0 && ShiftSamples(params[4], srate) >= 0
    requires forall i :: 0 <= i < |stim| ==> |stim[i]| >= 1
    ensures |runs| == |stim|
    ensures forall i :: 0 <= i < |stim| && runs[i].Some? ==> |runs[i].value| == |stim[i]|
  {
    seq(|stim|, i requires 0 <= i < |stim| => ComputeModel(tr, stim[i], srate, params))
  }

  /** Every finite run has a data row of its length. */
  ghost predicate Matched(runs: seq<Option<seq<real>>>, data: seq<seq<real>>)
  {
    && |data| >= |runs|
    && forall i :: 0 <= i < |runs| && runs[i].Some? ==> |runs[i].value| == |data[i]|
  }

  /** One step of the accumulation: `fit + np.sum((run - row)**2)`, where a
      non-finite `fit` or `run` makes the result non-finite (`nan + x` is
      `nan`). */
  function AddRow(fit: Option<real>, run: Option<seq<real>>, row: seq<real>): (r: Option<real>)
    requires run.Some? ==> |run.value| == |row|
    ensures r.Some? <==> fit.Some? && run.Some?
    ensures r.Some? ==> r.value >= fit.value
    ensures r.Some? ==> (r.value == fit.value <==> run.value == row)
  {
    match (fit, run)
    case (Some(acc), Some(x)) =>
      SumSquaredErrorZeroIff(x, row);
      Some(acc + SumSquaredError(x, row))
    case _ => None
  }

  /** The accumulated cost of the first `|runs|` rows: the sum over rows of
      the squared residuals of the run against its data row. */
  function CostOf(runs: seq<Option<seq<real>>>, data: seq<seq<real>>): (c: Option<real>)
    requires Matched(runs, data)
    ensures c.Some? ==> c.value >= 0.0
    decreases |runs|
  {
    if |runs| == 0 then Some(0.0)
    else AddRow(CostOf(runs[..|runs| - 1], data), runs[|runs| - 1], data[|runs| - 1])
  }

  /** The value `objective_function` returns. */
  function Cost(tr: Transcendentals, params: seq<real>, stim: seq<seq<real>>, data: seq<seq<real>>,
                srate: real): (c: Option<real>)
    requires Shaped(params, stim, data, srate)
    ensures c.Some? ==> c.value >= 0.0
  {
    CostOf(SimulateRows(tr, params, stim, srate), data)
  }

  /** `objective_function(params, stim, data, sample_rate, 'groen')`. */
  method ObjectiveFunction(tr: Transcendentals, params: seq<real>, stim: seq<seq<real>>,
                           data: seq<seq<real>>, srate: real) returns (fit: Option<real>)
    requires Shaped(params, stim, data, srate)
    ensures fit == Cost(tr, params, stim, data, srate)
  {
    ghost var runs := SimulateRows(tr, params, stim, srate);
    fit := Some(0.0);
    for i := 0 to |stim|
      invariant fit == CostOf(runs[..i], data)
    {
      var modelRun := ComputeModel(tr, stim[i], srate, params);
      assert runs[..i + 1][..i] == runs[..i];
      fit := AddRow(fit, modelRun, data[i]);
    }
    assert runs[..|stim|] == runs;
  }

  /** The accumulated cost is finite exactly when every run is. */
  lemma {:induction false} CostOfFiniteIff(runs: seq<Option<seq<real>>>, data: seq<seq<real>>)
    requires Matched(runs, data)
    ensures CostOf(runs, data).Some? <==> forall i :: 0 <= i < |runs| ==> runs[i].Some?
  {
    if |runs| > 0 {
      var last := |runs| - 1;
      CostOfFiniteIff(runs[..last], data);
      assert forall i :: 0 <= i < last ==> runs[..last][i] == runs[i];
    }
  }

  /** The accumulated cost is zero exactly when every run equals its data
      row. */
  lemma {:induction false} CostOfZeroIff(runs: seq<Option<seq<real>>>, data: seq<seq<real>>)
    requires Matched(runs, data)
    ensures CostOf(runs, data) == Some(0.0) <==> forall i :: 0 <= i < |runs| ==> runs[i] == Some(data[i])
  {
    if |runs| > 0 {
      var last := |runs| - 1;
      CostOfZeroIff(runs[..last], data);
      assert forall i :: 0 <= i < last ==> runs[..last][i] == runs[i];
    }
  }

  /** Only data rows `0..len(stim)-1` are read. */
  lemma {:induction false} CostOfReadsRunRows(runs: seq<Option<seq<real>>>, data1: seq<seq<real>>,
                                              data2: seq<seq<real>>)
    requires Matched(runs, data1) && Matched(runs, data2)
    requires data1[..|runs|] == data2[..|runs|]
    ensures CostOf(runs, data1) == CostOf(runs, data2)
  {
    if |runs| > 0 {
      var last := |runs| - 1;
      assert data1[..last] == data1[..|runs|][..last];
      assert data2[..last] == data2[..|runs|][..last];
      CostOfReadsRunRows(runs[..last], data1, data2);
      assert data1[last] == data1[..|runs|][last];
    }
  }

  /** `objective_function` is finite exactly when every row's simulation
      is. */
  lemma CostFiniteIff(tr: Transcendentals, params: seq<real>, stim: seq<seq<real>>,
                      data: seq<seq<real>>, srate: real)
    requires Shaped(params, stim, data, srate)
    ensures Cost(tr, params, stim, data, srate).Some? <==>
      forall i :: 0 <= i < |stim| ==> ComputeModel(tr, stim[i], srate, params).Some?
  {
    CostOfFiniteIff(SimulateRows(tr, params, stim, srate), data);
  }

  /** `objective_function` is zero exactly when every data row equals the
      simulation of its stimulus row. */
  lemma CostZeroIff(tr: Transcendentals, params: seq<real>, stim: seq<seq<real>>,
                    data: seq<seq<real>>, srate: real)
    requires Shaped(params, stim, data, srate)
    ensures Cost(tr, params, stim, data, srate) == Some(0.0) <==>
      forall i :: 0 <= i < |stim| ==> ComputeModel(tr, stim[i], srate, params) == Some(data[i])
  {
    CostOfZeroIff(SimulateRows(tr, params, stim, srate), data);
  }

  /** `objective_function` reads only data rows `0..len(stim)-1`. */
  lemma CostReadsStimRows(tr: Transcendentals, params: seq<real>, stim: seq<seq<real>>,
                          data1: seq<seq<real>>, data2: seq<seq<real>>, srate: real)
    requires Shaped(params, stim, data1, srate) && Shaped(params, stim, data2, srate)
    requires data1[..|stim|] == data2[..|stim|]
    ensures Cost(tr, params, stim, data1, srate) == Cost(tr, params, stim, data2, srate)
  {
    CostOfReadsRunRows(SimulateRows(tr, params, stim, srate), data1, data2);
  }
}
