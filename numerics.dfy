/**
 Scalar arithmetic shared by the temporal response model: an Option type for
 results that are not finite floating-point numbers, the transcendental
 primitives the model calls (`np.exp` and the real-exponent power `x**n`),
 and the exact integer-order power, factorial and rounding it relies on.
 */
module Numerics {

  /** `None` stands for a floating-point result that is not finite (NaN or
      an infinity); `Some(v)` for a finite one. */
  datatype Option<+T> = None | Some(value: T)

  /** The transcendental functions the model calls, taken as parameters.
      `exp` is `np.exp`; `pow(b, e)` is `b ** e` with a real exponent. */
  datatype Transcendentals = Transcendentals(exp: real -> real, pow: (real, real) -> real)
  {
    /** The properties of the real functions that the proofs rely on. */
    ghost predicate Valid()
    {
      && (forall x :: exp(x) > 0.0)
      && (forall x, y :: x <= y ==> exp(x) <= exp(y))
      && (forall b, e :: b > 0.0 ==> pow(b, e) > 0.0)
    }
  }

  /** A floating-point number: finite, infinite or NaN. Every infinity the
      model produces is positive (a power of zero with a negative exponent,
      or a sum involving one), so one `Infinity` suffices. */
  datatype Float = Finite(value: real) | Infinity | NaN

  /** `b ** e` in floating point with a real exponent. A zero base gives 0,
      1 or infinity as the exponent is positive, zero or negative; a negative
      base with a non-integer exponent gives NaN. Overflow is not modelled. */
  function FloatPow(tr: Transcendentals, b: real, e: real): (r: Float)
    ensures r == Infinity <==> b == 0.0 && e < 0.0
    ensures r == NaN <==> b < 0.0 && e != e.Floor as real
    ensures b == 0.0 && e > 0.0 ==> r == Finite(0.0)
    ensures b == 0.0 && e == 0.0 ==> r == Finite(1.0)
    ensures tr.Valid() && b > 0.0 ==> r.Finite? && r.value > 0.0
  {
    if b > 0.0 then Finite(tr.pow(b, e))
    else if b == 0.0 then (if e > 0.0 then Finite(0.0) else if e == 0.0 then Finite(1.0) else Infinity)
    else if e == e.Floor as real then Finite(tr.pow(b, e))
    else NaN
  }

  /** A power of a non-negative base is either infinite (zero base, negative
      exponent) or a non-negative finite number. */
  lemma FloatPowNonNegative(tr: Transcendentals, b: real, e: real)
    requires tr.Valid() && b >= 0.0
    ensures FloatPow(tr, b, e) == Infinity || (FloatPow(tr, b, e).Finite? && FloatPow(tr, b, e).value >= 0.0)
    ensures e >= 0.0 ==> FloatPow(tr, b, e).Finite?
  {
  }

  /** `a + b` in floating point, for operands that are never negative
      infinity: NaN wins, then infinity. */
  function FloatAdd(a: Float, b: Float): (r: Float)
    ensures r == NaN <==> a == NaN || b == NaN
    ensures r.Finite? <==> a.Finite? && b.Finite?
    ensures r.Finite? ==> r.value == a.value + b.value
  {
    match (a, b)
    case (Finite(x), Finite(y)) => Finite(x + y)
    case (NaN, _) => NaN
    case (_, NaN) => NaN
    case _ => Infinity
  }

  /** `a / b` in floating point, kept only when the quotient is finite:
      `None` stands for an infinite or NaN quotient. A finite number divided
      by infinity is 0. */
  function FloatDiv(a: Float, b: Float): (r: Option<real>)
    ensures r.Some? <==> a.Finite? && (b == Infinity || (b.Finite? && b.value != 0.0))
    ensures r.Some? && b.Finite? ==> r.value * b.value == a.value
    ensures r.Some? && b == Infinity ==> r.value == 0.0
  {
    match (a, b)
    case (Finite(x), Finite(d)) => if d == 0.0 then None else Some(x / d)
    case (Finite(_), Infinity) => Some(0.0)
    case _ => None
  }

  function Abs(x: real): (r: real)
    ensures r >= 0.0
    ensures r == x || r == -x
  {
    if x < 0.0 then -x else x
  }

  /** `x ** k` for a non-negative integer exponent (so `0 ** 0 == 1`). */
  function Pow(x: real, k: nat): (r: real)
    ensures x >= 0.0 ==> r >= 0.0
    ensures x > 0.0 ==> r > 0.0
  {
    if k == 0 then 1.0 else x * Pow(x, k - 1)
  }

  function Factorial(k: nat): (r: nat)
    ensures r >= 1
  {
    if k == 0 then 1 else k * Factorial(k - 1)
  }

  /** Round to the nearest integer, ties to the even neighbour, as Python's
      `round` and `np.round` do. */
  function RoundHalfEven(x: real): (r: int)
    ensures x - 0.5 <= r as real <= x + 0.5
    ensures (r as real == x - 0.5 || r as real == x + 0.5) ==> r % 2 == 0
  {
    var f := x.Floor;
    var d := x - f as real;
    if d < 0.5 then f
    else if d > 0.5 then f + 1
    else if f % 2 == 0 then f
    else f + 1
  }

  /** The two properties in RoundHalfEven's contract determine the result:
      no other integer is nearest with ties to even. */
  lemma RoundHalfEvenUnique(x: real, r: int)
    requires x - 0.5 <= r as real <= x + 0.5
    requires (r as real == x - 0.5 || r as real == x + 0.5) ==> r % 2 == 0
    ensures r == RoundHalfEven(x)
  {
  }

  /** `max(round(x), 1)`: the order of a gamma kernel, a positive integer. */
  function ClampOrder(x: real): (r: int)
    ensures r >= 1
    ensures r >= RoundHalfEven(x)
    ensures r == 1 || r == RoundHalfEven(x)
  {
    if RoundHalfEven(x) >= 1 then RoundHalfEven(x) else 1
  }
}
