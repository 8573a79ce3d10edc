# Delayed divisive normalisation: a Dafny model

This project models the forward simulation of the temporal response model of
Groen et al. and the least-squares cost that is fitted to measured responses.
A stimulus time series is delayed by a fixed number of samples, convolved with
a difference-of-gammas impulse response (`lin`), rectified, raised to the power
`n`, and divided by `sigma**n + |pool|**n`. Here `pool` is the linear response
convolved with an exponential-decay pooling kernel (`norm_delay`). The result
is then multiplied by a gain. The cost adds up the squared residuals of every
simulated stimulus row against its data row.

Everything is over Dafny `real`, so floating-point rounding is abstracted away.
Modules:

- `Numerics` (numerics.dfy): `Option` and scalar helpers. `None` stands for a
  non-finite (NaN or infinite) floating-point result. `Transcendentals` is a
  record holding `np.exp` and the real-exponent power `b ** e` on a nonzero
  base. Its `Valid()` predicate states the only properties the proofs use:
  `exp` is positive and monotone, and `pow` is positive on a positive base.
  `Float` is a floating-point value that may be infinite or NaN. `FloatPow`
  gives `0 ** e` exactly (0, 1 or infinity as `e` is positive, zero or
  negative) and NaN for a negative base with a non-integer exponent.
  `FloatAdd` and `FloatDiv` propagate infinity and NaN, and a finite number
  divided by infinity is 0. The module also has the exact integer power, the
  factorial, rounding half to even (Python `round` and `np.round`) and the
  order clamp `max(round(x), 1)`.
- `Signals` (signals.dfy): `np.sum` and its lemmas, and the truncated full
  convolution `np.convolve(x, h, 'full')[0:n]` as a recursive sum. Output
  sample `k` is the sum over `j <= k` of `x[j] * h[k - j]`, with samples
  outside an operand reading as zero. The module also has the sum of squared
  residuals.
- `ResponseFunction` (response_function.dfy): `gammaPDF` and
  `exponential_decay`, each divided by its own sum.
- `GroenModel` (groen_model.dfy): the model object. It is never changed after
  construction, so it is the immutable datatype `Groen`, built by `NewGroen`.
  The stages are functions of it.
- `Objective` (objective_function.dfy): `compute_model` for the `'groen'`
  variant, and `objective_function`. `objective_function` is a method whose
  loop accumulates the cost row by row. Its loop invariant ties the
  accumulator to the specification function `CostOf` over the rows done so
  far.

Non-finite values are modelled where they come from exact arithmetic:

- A kernel on a nonempty time axis is `None` when its time constant is zero or
  its raw sum is zero, because `y / np.sum(y)` then divides by zero.
- `exp` raises each sample to the power `n` as a `Float`. A zero sample with a
  negative `n` is infinite.
- The normalisation denominator `sigma**n + abs(d)**n` is a `Float` too. It is
  infinite where `sigma` or `d` is zero and `n` is negative.
- A normalisation is `None` when some quotient is infinite or NaN: an infinite
  numerator, a zero denominator, or a NaN on either side. A finite numerator
  over an infinite denominator gives 0.
- `None` propagates through the stages and into the cost, as NaN does.
- The fitter's lower bound `n >= 0.1` (tm_DN_fit_model.py:72) keeps every
  fitted run out of the `n < 0` cases above.

Calls that numpy or Python refuse appear as preconditions:

- a negative `np.pad` width, so the delay must round to a non-negative number
  of samples;
- an empty `np.convolve` operand, so the stimulus must be nonempty;
- a negative `math.factorial` argument, so the gamma order must be at least 1.

## Model

| member | source | states |
|---|---|---|
| Numerics.RoundHalfEven | models/Model_Groen_et_al.py:65 | the result is an integer within 0.5 of `x`, and a tie goes to the even neighbour |
| Numerics.RoundHalfEvenUnique | models/Model_Groen_et_al.py:82 | the two rounding properties determine the integer, so `round` and `np.round` agree |
| Numerics.ClampOrder | models/Model_Groen_et_al.py:65 | `max(round(n_irf), 1)` is at least 1, is at least `round(n_irf)`, and is either 1 or `round(n_irf)` |
| Numerics.Pow | utils/response_function.py:24 | `x ** k` with an integer exponent is non-negative for a non-negative base and positive for a positive base |
| Numerics.FloatPow | models/Model_Groen_et_al.py:107 | `b ** e` is infinite exactly for a zero base with a negative exponent, NaN exactly for a negative base with a non-integer exponent, 0 or 1 for a zero base with a positive or zero exponent, and positive for a positive base |
| Numerics.FloatPowNonNegative | models/Model_Groen_et_al.py:126 | a power of a non-negative base is infinite or a non-negative number, and finite when the exponent is non-negative |
| Numerics.FloatAdd | models/Model_Groen_et_al.py:126 | a sum is NaN exactly when an operand is, finite exactly when both are, and then the real sum |
| Numerics.FloatDiv | models/Model_Groen_et_al.py:127 | a quotient is finite exactly when the numerator is finite and the denominator infinite or nonzero; a finite quotient times a finite denominator gives the numerator, and over infinity it is 0 |
| Numerics.Factorial | utils/response_function.py:24 | `math.factorial(k)` is at least 1, so the gamma denominator is nonzero when `tau` is |
| Signals.Sum | utils/response_function.py:27 | `np.sum`, added from the last sample backwards; its properties are stated by the `Sum` lemmas below |
| Signals.SumNonNegative | utils/objective_function.py:18 | a sum of non-negative terms is non-negative |
| Signals.SumPositive | utils/response_function.py:27 | a sum of non-negative terms with one positive term is positive |
| Signals.SumZeroOnlyIfAllZero | utils/objective_function.py:18 | a sum of non-negative terms is zero only if every term is zero |
| Signals.SumLinear | models/Model_Groen_et_al.py:73 | the sum of `a - w*b` is `sum(a) - w*sum(b)` |
| Signals.SumDivided | utils/response_function.py:27 | dividing every term by `c` divides the sum by `c` |
| Signals.TruncatedConvolve | models/Model_Groen_et_al.py:92-93 | on nonempty operands with `n` at most the full length `|x| + |h| - 1`, the truncated convolution has exactly `n` samples |
| Signals.ConvolveCausal | models/Model_Groen_et_al.py:92-93 | output sample `k` depends only on input samples `0..k` |
| Signals.ConvolveZero | models/Model_Groen_et_al.py:124-125 | a zero input gives a zero output, whatever the kernel |
| Signals.ConvolveImpulse | models/Model_Groen_et_al.py:92-93 | convolving with the unit impulse gives the input back, zero-extended or cut to `n` samples |
| Signals.SumSquaredError | utils/objective_function.py:18 | `np.sum((model_run - data[i, :])**2)`; its sign and zero set are stated by `Signals.SumSquaredErrorZeroIff` |
| Signals.SquarePositive | utils/objective_function.py:18 | a squared residual is non-negative, and positive unless the residual is zero |
| Signals.SumSquaredErrorZeroIff | utils/objective_function.py:18 | `np.sum((a - b)**2)` is non-negative and is zero exactly when `a == b` |
| ResponseFunction.Normalise | utils/response_function.py:27 | `y / np.sum(y)` is non-finite exactly when `y` is nonempty with zero sum; otherwise each output sample times the sum is the input sample, and a nonempty result sums to 1 |
| ResponseFunction.GammaRaw | utils/response_function.py:24 | the raw gamma samples, one per time point; their signs are stated by `ResponseFunction.GammaRawNonNegative` and `GroenModel.GammaRawSamplePositive` |
| ResponseFunction.GammaPdf | utils/response_function.py:24-29 | the kernel has the length of `t`, a finite nonempty kernel sums to 1, and `tau == 0` on a nonempty axis is non-finite |
| ResponseFunction.GammaRawNonNegative | utils/response_function.py:24 | with `tau > 0`, times `>= 0` and integer order `>= 1`, every raw gamma sample is non-negative |
| ResponseFunction.GammaPdfNonNegative | utils/response_function.py:27 | under the same conditions the normalised gamma kernel is non-negative |
| ResponseFunction.DecayRaw | utils/response_function.py:49 | `np.exp(-t/tau)`, one sample per time point; positivity and monotonicity are stated by `ResponseFunction.DecayRawShape` |
| ResponseFunction.ExponentialDecay | utils/response_function.py:49-52 | the kernel has the length of `t`, a finite nonempty kernel sums to 1, and `tau == 0` on a nonempty axis is non-finite |
| ResponseFunction.DecayRawShape | utils/response_function.py:49 | every raw decay sample is positive, and with `tau > 0` a later time never gets a larger one |
| ResponseFunction.ExponentialDecayPositive | utils/response_function.py:49-52 | any nonzero `tau` gives a finite kernel; with `tau > 0` it is positive and non-increasing along a non-decreasing `t` |
| GroenModel.ShiftSamples | models/Model_Groen_et_al.py:82 | the delay in samples is within half a sample of `shift * srate`, and a tie goes to the even count |
| GroenModel.ShiftSamplesNonNegative | models/Model_Groen_et_al.py:82-83 | a non-negative delay rounds to a non-negative pad width |
| GroenModel.TimeAxis | models/Model_Groen_et_al.py:68 | the axis has `numtimepts` samples and `t[i] * srate == i` |
| GroenModel.TimeAxisIncreasing | models/Model_Groen_et_al.py:68 | `t[0] == 0`, every `t[i] >= 0`, and `t` is strictly increasing |
| GroenModel.Difference | models/Model_Groen_et_al.py:73 | `irf_pos - weight*irf_neg` is finite exactly when both lobes are, and `irf[k] + weight*irf_neg[k] == irf_pos[k]` |
| GroenModel.ImpulseResponse | models/Model_Groen_et_al.py:71-73 | the impulse response, when finite, has the length of the time axis |
| GroenModel.ImpulseResponseSum | models/Model_Groen_et_al.py:71-73 | a finite impulse response on a nonempty axis sums to `1 - weight` |
| GroenModel.ImpulseResponseWeightZero | models/Model_Groen_et_al.py:71-73 | with `weight == 0` a finite impulse response is the positive gamma lobe |
| GroenModel.NewGroen | models/Model_Groen_et_al.py:47-76 | the built model is well formed (kernels and time axis of length `len(stim)`), keeps its parameters, and its order is at least 1 and equals `round(n_irf)` whenever that is at least 1 |
| GroenModel.GammaRawSamplePositive | utils/response_function.py:24 | a raw gamma sample is positive at a positive time, and at time 0 when the order is 1 |
| GroenModel.GammaPdfOnTimeAxis | models/Model_Groen_et_al.py:71-72 | on the model's time axis with `tau > 0`, the gamma kernel is non-finite exactly for a one-sample axis with order at least 2 |
| GroenModel.KernelsFinite | models/Model_Groen_et_al.py:71-76 | with positive time constants the pooling kernel is finite, and the impulse response is finite except for a one-sample stimulus with order at least 2 |
| GroenModel.IrfSum | models/Model_Groen_et_al.py:71-73 | a finite nonempty impulse response sums to `1 - weight` |
| GroenModel.IrfWeightZero | models/Model_Groen_et_al.py:71-73 | with `weight == 0` the impulse response is the positive gamma lobe |
| GroenModel.NormIrfDecreasing | models/Model_Groen_et_al.py:76 | with `tau_a > 0` the pooling kernel is finite, positive and non-increasing over time |
| GroenModel.ResponseShift | models/Model_Groen_et_al.py:82-84 | the output has `min(numtimepts, sft + len(input))` samples; the first `sft` are 0 and `out[k] == input[k - sft]` after them; `sft == 0` gives the input cut to `numtimepts`; `sft >= numtimepts` gives all zeros |
| GroenModel.Lin | models/Model_Groen_et_al.py:92-93 | `lin` is finite exactly when the impulse response is, and has `numtimepts` samples |
| GroenModel.Rectf | models/Model_Groen_et_al.py:100 | `abs(input)` keeps the length, and every output sample is non-negative and equals the input sample or its negation |
| GroenModel.RectfIdempotent | models/Model_Groen_et_al.py:100 | rectifying twice is rectifying once |
| GroenModel.Exp | models/Model_Groen_et_al.py:107 | `input**n` keeps the length, is infinite exactly at zero samples when `n < 0`, is never NaN on non-negative samples, and maps non-negative samples to non-negative finite values or infinity |
| GroenModel.Denominator | models/Model_Groen_et_al.py:115 | with `sigma > 0` each sample of `sigma**n + abs(signal)**n` is infinite exactly where the signal is zero and `n < 0`, and a positive number otherwise |
| GroenModel.DenominatorSample | models/Model_Groen_et_al.py:126 | the same two facts for one sample of the denominator |
| GroenModel.Divide | models/Model_Groen_et_al.py:116 | the elementwise quotient is kept exactly when every sample quotient is finite, and each output sample is that sample quotient |
| GroenModel.DivideSigns | models/Model_Groen_et_al.py:127 | finite numerators over positive or infinite denominators give a finite quotient; over positive finite denominators it has the numerators' signs; non-negative numerators give non-negative samples |
| GroenModel.DivideByDenominator | models/Model_Groen_et_al.py:126-127 | with `sigma > 0` dividing by the denominator is finite exactly when every numerator is finite, gives 0 where the signal is zero and `n < 0`, keeps the numerators' signs when `n >= 0`, and keeps non-negative numerators non-negative |
| GroenModel.Norm | models/Model_Groen_et_al.py:115-116 | each sample of `norm` is the floating-point quotient of input and denominator; with `sigma > 0` it is finite exactly when every input sample is, it is 0 where `linrsp` is zero and `n < 0`, and with `n >= 0` it agrees in sign with the input, zero exactly where the input is zero |
| GroenModel.Pool | models/Model_Groen_et_al.py:124-125 | the pooled response is finite exactly when the pooling kernel is, and has `numtimepts` samples |
| GroenModel.NormDelay | models/Model_Groen_et_al.py:124-127 | each sample of `norm_delay` is the floating-point quotient of input and pooled denominator; with `sigma > 0` and a finite pooling kernel it is finite exactly when every input sample is, it is 0 where the pooled response is zero and `n < 0`, with `n >= 0` it agrees in sign with the input, and non-negative inputs give non-negative samples |
| Objective.Unpack | utils/objective_function.py:42-50 | unpacking reads `params[0..8]`: packing the named values back gives the first nine entries |
| Objective.Pack | tm_DN_fit_model.py:145-146 | the fitter's vector has nine entries |
| Objective.UnpackPack | utils/objective_function.py:42-50 | unpacking the fitter's vector gives back the named parameters, so the fitter's order is the order `compute_model` reads |
| Objective.PackUnpack | utils/objective_function.py:42-50 | only the first nine entries of the vector are read |
| Objective.Scaled | utils/objective_function.py:65 | the scaled response keeps its length, a zero gain gives all zeros, and a non-negative gain keeps non-negative samples non-negative |
| Objective.Simulate | utils/objective_function.py:56-65 | the staged response has `len(stim)` samples and is all zeros when the gain is zero |
| Objective.ModelFor | utils/objective_function.py:42-53 | the model built from a vector is well formed for the stimulus length and carries `shift`, `scale` and `sigma` from positions 4, 5 and 7 |
| Objective.ComputeModel | utils/objective_function.py:22-67 | the simulation has `len(stim)` samples and `scale == 0` gives all zeros |
| Objective.ModelForLength | models/Model_Groen_et_al.py:61 | the built model depends on the stimulus only through its length |
| Objective.ComputeModelNonNegative | utils/objective_function.py:59-65 | with `sigma > 0` and `scale >= 0` a finite simulation is non-negative everywhere |
| Objective.SimulateFinite | utils/objective_function.py:56-62 | with `sigma > 0` the staged simulation is finite exactly when both kernels are and, for `n < 0`, no linear-response sample is zero |
| Objective.LinFirstSample | models/Model_Groen_et_al.py:92-93 | the first `lin` sample is the first input sample times the first impulse-response sample |
| Objective.SimulateZeroStart | utils/objective_function.py:56-62 | for `n < 0`, a stimulus starting at zero, or a delay that rounds to at least one sample, makes the simulation non-finite |
| Objective.ComputeModelFinite | utils/objective_function.py:53-62 | with positive time constants and `sigma > 0`: for `n >= 0` the simulation is finite exactly unless the stimulus has one sample and the order is at least 2; for `n < 0` it is non-finite whenever the stimulus starts at zero or the delay rounds to at least one sample |
| Objective.ResponseShiftCausal | models/Model_Groen_et_al.py:82-84 | `response_shift` output samples `0..k` depend only on input samples `0..k` |
| Objective.LinCausal | models/Model_Groen_et_al.py:92-93 | `lin` output samples `0..k` depend only on input samples `0..k` |
| Objective.NormDelayCausal | models/Model_Groen_et_al.py:124-127 | when both are finite, `norm_delay` at sample `k` depends only on the numerator at `k` and the linear response at `0..k` |
| Objective.SimulateCausal | utils/objective_function.py:56-65 | the staged pipeline is causal: stimuli agreeing on `0..k` give responses agreeing at `k` whenever both are finite, and with `sigma > 0` and `n >= 0` they are finite together |
| Objective.ComputeModelCausal | utils/objective_function.py:53-65 | `compute_model` is causal in the same sense: agreement at `k` whenever both runs are finite, and finite together when `sigma > 0` and `n >= 0` |
| Objective.WithinLowerBounds | tm_DN_fit_model.py:51-84 | the fitter's lower bound on each of the nine parameters; what they guarantee is stated by `Objective.LowerBoundsSimulation` |
| Objective.LowerBoundsSimulation | tm_DN_fit_model.py:49-84 | within the fitter's lower bounds every nonempty stimulus can be simulated, the result is finite exactly when the stimulus has at least two samples, and it is non-negative |
| Objective.SimulateRows | utils/objective_function.py:12-15 | one simulation per stimulus row, each of its row's length when finite |
| Objective.AddRow | utils/objective_function.py:18 | one step of the accumulation is finite exactly when the accumulator and the run are, never decreases the accumulator, and leaves it unchanged exactly when the run equals its data row |
| Objective.CostOf | utils/objective_function.py:11-18 | the accumulated cost is non-negative whenever it is finite |
| Objective.Cost | utils/objective_function.py:8-20 | the cost is non-negative whenever it is finite |
| Objective.ObjectiveFunction | utils/objective_function.py:8-20 | the loop returns `Cost`; after `i` rows the accumulator is the cost of rows `0..i-1` |
| Objective.CostOfFiniteIff | utils/objective_function.py:18 | the accumulated cost is finite exactly when every run is |
| Objective.CostOfZeroIff | utils/objective_function.py:15-18 | the accumulated cost is zero exactly when every run equals its data row |
| Objective.CostOfReadsRunRows | utils/objective_function.py:12-18 | only data rows `0..len(runs)-1` are read |
| Objective.CostFiniteIff | utils/objective_function.py:12-18 | `objective_function` is finite exactly when every row's simulation is |
| Objective.CostZeroIff | utils/objective_function.py:15-18 | `objective_function` is zero exactly when every data row equals the simulation of its stimulus row |
| Objective.CostReadsStimRows | utils/objective_function.py:12-18 | `objective_function` reads only data rows `0..len(stim)-1` |

## Left out

- The `'zhou'` branch of `compute_model`: `models/Model_Zhou_et_al.py` is not part of this model, so only the `'groen'` branch is modelled.
- `utils/visualization.py` (plotting only). From `tm_DN_fit_model.py`, the CSV loading, the `least_squares` call and the printing are left out. Its parameter order and its lower bounds are modelled through `Objective.Pack` and `Objective.WithinLowerBounds`.
- Floating-point rounding, overflow and underflow. All arithmetic is exact over `real`. A value that would overflow to infinity in floating point is finite here. Non-finite values are modelled only where exact arithmetic produces them: division by a zero sum or a zero denominator, and `0 ** n` for `n < 0`.
- `np.exp` and the power of a nonzero base are fields of a `Transcendentals` record. Only the properties in its `Valid()` predicate are used, so the value of a negative base raised to an integer exponent is left unconstrained.
- The sign of an infinity. Every infinity that `exp` or a denominator produces is positive, so `Float` has one `Infinity`. After a division, an infinite or NaN quotient is only recorded as non-finite.
- Numpy broadcasting: a length-1 row against a longer row broadcasts in numpy. This holds whichever of the simulated row and the data row has one sample. Here `Objective.Shaped` requires equal lengths instead.
- Objective.ComputeModel: it requires a nonempty stimulus, because `np.convolve` refuses an empty operand. It requires a delay that rounds to a non-negative number of samples, because `np.pad` refuses a negative width. The fitter's lower bound `shift >= 0` gives this (`GroenModel.ShiftSamplesNonNegative`). It also requires a positive sample rate. A zero rate raises `ZeroDivisionError` at `1/self.srate`. A negative rate would run whenever the delay rounds to 0, but a negative sampling rate has no meaning, so it is excluded.
- ResponseFunction.GammaPdf: it requires order `>= 1`, where `math.factorial(n - 1)` raises otherwise. The constructor's clamp always gives this.
- The static `norm` stage is modelled on its own (`GroenModel.Norm`), because `compute_model` never calls it.
- The code has no guard against a non-finite cost, so here a non-finite run makes the cost `None`.
- In exact arithmetic only `tau == 0` or a zero raw sum makes a kernel non-finite, and a negative `tau` gives finite values. In floating point `np.exp(-t/tau)` with a negative `tau` overflows for large `t/|tau|`, which this model does not capture (see the overflow line above).
