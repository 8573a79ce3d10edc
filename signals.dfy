/**
 Sequence arithmetic over real-valued time series: sums, the zero-extended
 sample lookup, the truncated full convolution `np.convolve(x, h, 'full')[0:n]`
 and the sum of squared residuals.
 */
module Signals {
  import opened Numerics

  /** `np.sum`. */
  function Sum(s: seq<real>): real
  {
    if |s| == 0 then 0.0 else Sum(s[..|s| - 1]) + s[|s| - 1]
  }

  lemma {:induction false} SumNonNegative(s: seq<real>)
    requires forall i :: 0 <= i < |s| ==> s[i] >= 0.0
    ensures Sum(s) >= 0.0
  {
    if |s| > 0 {
      SumNonNegative(s[..|s| - 1]);
    }
  }

  /** A sum of non-negative terms with one positive term is positive. */
  lemma {:induction false} SumPositive(s: seq<real>, p: nat)
    requires forall i :: 0 <= i < |s| ==> s[i] >= 0.0
    requires p < |s| && s[p] > 0.0
    ensures Sum(s) > 0.0
  {
    var last := |s| - 1;
    if p == last {
      SumNonNegative(s[..last]);
    } else {
      SumPositive(s[..last], p);
    }
  }

  /** A sum of non-negative terms is zero only if every term is zero. */
  lemma {:induction false} SumZeroOnlyIfAllZero(s: seq<real>)
    requires forall i :: 0 <= i < |s| ==> s[i] >= 0.0
    requires Sum(s) == 0.0
    ensures forall i :: 0 <= i < |s| ==> s[i] == 0.0
  {
    if |s| > 0 {
      var last := |s| - 1;
      SumNonNegative(s[..last]);
      SumZeroOnlyIfAllZero(s[..last]);
      forall i | 0 <= i < |s| ensures s[i] == 0.0 {
        if i < last {
          assert s[i] == s[..last][i];
        }
      }
    }
  }

  lemma {:induction false} SumAllZero(s: seq<real>)
    requires forall i :: 0 <= i < |s| ==> s[i] == 0.0
    ensures Sum(s) == 0.0
  {
    if |s| > 0 {
      SumAllZero(s[..|s| - 1]);
    }
  }

  /** Sum is linear: `sum(a - w*b) == sum(a) - w*sum(b)`. */
  lemma {:induction false} SumLinear(a: seq<real>, b: seq<real>, w: real, d: seq<real>)
    requires |a| == |b| == |d|
    requires forall i :: 0 <= i < |d| ==> d[i] == a[i] - w * b[i]
    ensures Sum(d) == Sum(a) - w * Sum(b)
  {
    if |d| > 0 {
      var last := |d| - 1;
      SumLinear(a[..last], b[..last], w, d[..last]);
    }
  }

  /** Dividing every term by `c` divides the sum by `c`. */
  lemma {:induction false} SumDivided(s: seq<real>, c: real, d: seq<real>)
    requires c != 0.0
    requires |d| == |s|
    requires forall i :: 0 <= i < |s| ==> d[i] == s[i] / c
    ensures Sum(d) == Sum(s) / c
  {
    if |s| > 0 {
      var last := |s| - 1;
      SumDivided(s[..last], c, d[..last]);
      assert Sum(d) == Sum(s[..last]) / c + s[last] / c;
    }
  }

  /** Sample `j` of `s`, reading zero outside `s`: the zero extension that
      full convolution assumes. */
  function At(s: seq<real>, j: int): real
  {
    if 0 <= j < |s| then s[j] else 0.0
  }

  /** `sum(x[j] * h[k - j] for j in 0..m-1)`. */
  function ConvPartial(x: seq<real>, h: seq<real>, k: int, m: nat): real
  {
    if m == 0 then 0.0 else ConvPartial(x, h, k, m - 1) + At(x, m - 1) * At(h, k - (m - 1))
  }

  /** Sample `k` of the full convolution of `x` with `h`. Only lags
      `0 <= j <= k` contribute, so the sum stops at `j == k`. */
  function ConvAt(x: seq<real>, h: seq<real>, k: nat): real
  {
    ConvPartial(x, h, k, k + 1)
  }

  /** `np.convolve(x, h, 'full')[0:n]`. `np.convolve` refuses an empty
      operand, and the full convolution has `|x| + |h| - 1` samples, so the
      truncation keeps exactly `n` of them when `n` is at most that. */
  function TruncatedConvolve(x: seq<real>, h: seq<real>, n: nat): (r: seq<real>)
    requires |x| >= 1 && |h| >= 1 && n <= |x| + |h| - 1
    ensures |r| == n
  {
    seq(n, k requires 0 <= k < n => ConvAt(x, h, k))
  }

  /** `a` and `b` agree on samples `0..k`. */
  ghost predicate AgreeUpTo(a: seq<real>, b: seq<real>, k: int)
  {
    forall j :: 0 <= j <= k ==> At(a, j) == At(b, j)
  }

  lemma {:induction false} ConvPartialCausal(x1: seq<real>, x2: seq<real>, h: seq<real>, k: int, m: nat)
    requires AgreeUpTo(x1, x2, m - 1)
    ensures ConvPartial(x1, h, k, m) == ConvPartial(x2, h, k, m)
  {
    if m > 0 {
      ConvPartialCausal(x1, x2, h, k, m - 1);
      assert At(x1, m - 1) == At(x2, m - 1);
    }
  }

  /** Causality: output sample `k` depends only on input samples `0..k`. */
  lemma ConvolveCausal(x1: seq<real>, x2: seq<real>, h: seq<real>, n: nat, k: nat)
    requires |x1| >= 1 && |x2| >= 1 && |h| >= 1 && n <= |x1| + |h| - 1 && n <= |x2| + |h| - 1
    requires k < n
    requires AgreeUpTo(x1, x2, k)
    ensures TruncatedConvolve(x1, h, n)[k] == TruncatedConvolve(x2, h, n)[k]
  {
    ConvPartialCausal(x1, x2, h, k, k + 1);
  }

  lemma {:induction false} ConvPartialZero(x: seq<real>, h: seq<real>, k: int, m: nat)
    requires forall j :: 0 <= j < |x| ==> x[j] == 0.0
    ensures ConvPartial(x, h, k, m) == 0.0
  {
    if m > 0 {
      ConvPartialZero(x, h, k, m - 1);
    }
  }

  /** A zero input gives a zero output. */
  lemma ConvolveZero(x: seq<real>, h: seq<real>, n: nat)
    requires |x| >= 1 && |h| >= 1 && n <= |x| + |h| - 1
    requires forall j :: 0 <= j < |x| ==> x[j] == 0.0
    ensures forall k :: 0 <= k < n ==> TruncatedConvolve(x, h, n)[k] == 0.0
  {
    forall k | 0 <= k < n ensures TruncatedConvolve(x, h, n)[k] == 0.0 {
      ConvPartialZero(x, h, k, k + 1);
    }
  }

  /** The unit impulse `[1, 0, 0, ...]`. */
  ghost predicate IsUnitImpulse(h: seq<real>)
  {
    |h| > 0 && h[0] == 1.0 && forall j :: 0 < j < |h| ==> h[j] == 0.0
  }

  lemma {:induction false} ConvPartialImpulse(x: seq<real>, h: seq<real>, k: nat, m: nat)
    requires IsUnitImpulse(h)
    requires m <= k + 1
    ensures ConvPartial(x, h, k, m) == if m == k + 1 then At(x, k) else 0.0
  {
    if m > 0 {
      ConvPartialImpulse(x, h, k, m - 1);
      if m - 1 < k {
        assert At(h, k - (m - 1)) == 0.0;
      }
    }
  }

  /** Convolving with the unit impulse gives the input back (zero-padded or
      truncated to `n` samples). */
  lemma ConvolveImpulse(x: seq<real>, h: seq<real>, n: nat)
    requires |x| >= 1 && |h| >= 1 && n <= |x| + |h| - 1
    requires IsUnitImpulse(h)
    ensures forall k :: 0 <= k < n ==> TruncatedConvolve(x, h, n)[k] == At(x, k)
  {
    forall k | 0 <= k < n ensures TruncatedConvolve(x, h, n)[k] == At(x, k) {
      ConvPartialImpulse(x, h, k, k + 1);
    }
  }

  /** `(a - b)**2`, elementwise. */
  function SquaredResiduals(a: seq<real>, b: seq<real>): (r: seq<real>)
    requires |a| == |b|
    ensures |r| == |a|
  {
    seq(|a|, k requires 0 <= k < |a| => Square(a[k] - b[k]))
  }

  /** `np.sum((a - b)**2)`. */
  function SumSquaredError(a: seq<real>, b: seq<real>): real
    requires |a| == |b|
  {
    Sum(SquaredResiduals(a, b))
  }

  function Mul(x: real, y: real): real
  {
    x * y
  }

  function Square(d: real): real
  {
    Mul(d, d)
  }

  lemma MulPositive(x: real, y: real)
    requires x > 0.0 && y > 0.0
    ensures Mul(x, y) > 0.0
  {
  }

  /** A square is non-negative, and positive unless its root is zero. */
  lemma SquarePositive(d: real)
    ensures Square(d) >= 0.0
    ensures d != 0.0 ==> Square(d) > 0.0
  {
    if d > 0.0 {
      MulPositive(d, d);
    } else if d < 0.0 {
      MulPositive(-d, -d);
      assert Mul(-d, -d) == Mul(d, d);
    }
  }

  /** The squared error is never negative, and it is zero exactly when the
      two series are equal. */
  lemma SumSquaredErrorZeroIff(a: seq<real>, b: seq<real>)
    requires |a| == |b|
    ensures SumSquaredError(a, b) >= 0.0
    ensures SumSquaredError(a, b) == 0.0 <==> a == b
  {
    var sq := SquaredResiduals(a, b);
    forall k | 0 <= k < |a| ensures sq[k] >= 0.0 {
      SquarePositive(a[k] - b[k]);
    }
    SumNonNegative(sq);
    if a == b {
      assert forall k :: 0 <= k < |a| ==> sq[k] == Square(0.0);
      SumAllZero(sq);
    }
    if SumSquaredError(a, b) == 0.0 {
      SumZeroOnlyIfAllZero(sq);
      forall k | 0 <= k < |a| ensures a[k] == b[k] {
        assert sq[k] == Square(a[k] - b[k]) == 0.0;
        SquarePositive(a[k] - b[k]);
      }
    }
  }
}
