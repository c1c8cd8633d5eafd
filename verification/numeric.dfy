/**
 * C++ arithmetic used by the per-waveform computation, over Dafny's exact
 * reals and unbounded integers: float-to-int conversion (truncation toward
 * zero), integer division (also truncating), and `std::accumulate` with an
 * `int` initial value, whose accumulator truncates after every addition.
 */
module Numeric {

  function Abs(x: real): real {
    if x < 0.0 then -x else x
  }

  /** True when `x` has no fractional part (an ADC count, say). */
  predicate IsIntegral(x: real) {
    x == x.Floor as real
  }

  /** Conversion of a `float` to `int`: rounds toward zero. */
  function TruncToInt(r: real): (n: int)
    ensures 0.0 <= r ==> n as real <= r < n as real + 1.0
    ensures r < 0.0 ==> n as real - 1.0 < r <= n as real
  {
    if r >= 0.0 then r.Floor else -((-r).Floor)
  }

  /** Integer values are left alone by the conversion. */
  lemma TruncOfIntegral(r: real)
    requires IsIntegral(r)
    ensures TruncToInt(r) as real == r
  {
    var n := r.Floor;
    assert -r == (-n) as real;
    assert (-r).Floor == -n;
  }

  /** C++ `a / b` on `int`: the quotient is truncated toward zero, so the
      remainder `a - q * b` takes the sign of `a` and is smaller than `b`
      in magnitude. */
  function TruncDiv(a: int, b: int): (q: int)
    requires b != 0
    ensures 0 <= a ==> 0 <= a - q * b < if b < 0 then -b else b
    ensures a < 0 ==> -(if b < 0 then -b else b) < a - q * b <= 0
  {
    if 0 <= a && 0 < b then a / b
    else if 0 <= a then -(a / -b)
    else if 0 < b then -((-a) / b)
    else (-a) / (-b)
  }

  /** The truncating quotient by a positive divisor in real terms: `a / b`
      rounded down for `a >= 0` and rounded up for `a < 0`. */
  lemma TruncDivBracket(a: int, b: int)
    requires 0 < b
    ensures var x, q, y := a as real, TruncDiv(a, b) as real, b as real;
      && (0.0 <= x ==> q * y <= x < (q + 1.0) * y)
      && (x < 0.0 ==> (q - 1.0) * y < x <= q * y)
  {
    var q := TruncDiv(a, b);
    assert (a - q * b) as real == a as real - q as real * b as real;
    assert q as real * b as real + b as real == (q as real + 1.0) * b as real;
    assert q as real * b as real - b as real == (q as real - 1.0) * b as real;
  }

  /** Multiplying the truncated quotient back by a positive divisor misses
      the dividend by less than one divisor, whatever the dividend's sign. */
  lemma TruncDivNear(a: int, b: int)
    requires 0 < b
    ensures Abs(a as real - TruncDiv(a, b) as real * b as real) < b as real
  {
    TruncDivBracket(a, b);
  }

  /** `x` scaled by `b` is within `e` of `s`. */
  predicate ScaledNear(x: real, b: real, s: real, e: real) {
    Abs(x * b - s) < e
  }

  /** Dividing an approximation `a` of `s` by `b` and multiplying back adds
      less than one `b` to the error: within `b + 1` before, within
      `2 * b + 1` after. */
  lemma TruncDivApprox(a: int, b: int, s: real)
    requires 0 < b
    requires Abs(a as real - s) < (b + 1) as real
    ensures ScaledNear(TruncDiv(a, b) as real, b as real, s, (2 * b + 1) as real)
  {
    TruncDivNear(a, b);
  }

  /** Exact sum `w[lo] + ... + w[hi-1]`. */
  function WindowSum(w: seq<real>, lo: int, hi: int): real
    requires 0 <= lo <= hi <= |w|
    decreases hi - lo
  {
    if hi == lo then 0.0 else WindowSum(w, lo, hi - 1) + w[hi - 1]
  }

  /** `std::accumulate(w.begin() + lo, w.begin() + hi, 0)`: the accumulator
      is an `int`, so each step computes `acc + w[k]` in floating point and
      truncates it back to an integer. Each step loses less than one unit,
      so the result is within `hi - lo` of the exact sum. */
  function IntAccumulate(w: seq<real>, lo: int, hi: int): (acc: int)
    requires 0 <= lo <= hi <= |w|
    ensures hi == lo ==> acc == 0
    ensures Abs(acc as real - WindowSum(w, lo, hi)) <= (hi - lo) as real
    ensures lo < hi ==> Abs(acc as real - WindowSum(w, lo, hi)) < (hi - lo) as real
    decreases hi - lo
  {
    if hi == lo then 0 else TruncToInt(IntAccumulate(w, lo, hi - 1) as real + w[hi - 1])
  }

  /** When every sample in the window is integral the truncation never
      fires and the `int` accumulator is exact. */
  lemma {:induction false} IntAccumulateExact(w: seq<real>, lo: int, hi: int)
    requires 0 <= lo <= hi <= |w|
    requires forall k :: lo <= k < hi ==> IsIntegral(w[k])
    ensures IntAccumulate(w, lo, hi) as real == WindowSum(w, lo, hi)
    decreases hi - lo
  {
    if hi != lo {
      IntAccumulateExact(w, lo, hi - 1);
      var x := IntAccumulate(w, lo, hi - 1) as real + w[hi - 1];
      assert x == (IntAccumulate(w, lo, hi - 1) + w[hi - 1].Floor) as real;
      TruncOfIntegral(x);
    }
  }

  /** A window whose samples all equal `x` sums to `x` taken `hi - lo` times. */
  lemma {:induction false} WindowSumFlat(w: seq<real>, lo: int, hi: int, x: real)
    requires 0 <= lo <= hi <= |w|
    requires forall k :: lo <= k < hi ==> w[k] == x
    ensures WindowSum(w, lo, hi) == Times(x, hi - lo)
    decreases hi - lo
  {
    if hi != lo {
      WindowSumFlat(w, lo, hi - 1, x);
    }
  }

  /** `v` is `w` with every sample moved by `c`. */
  predicate IsShift(v: seq<real>, w: seq<real>, c: real) {
    |v| == |w| && forall k :: 0 <= k < |w| ==> v[k] == w[k] + c
  }

  /** The exact sum moves by `c` per sample under a shift. */
  lemma {:induction false} WindowSumShift(w: seq<real>, v: seq<real>, c: real, lo: int, hi: int)
    requires IsShift(v, w, c)
    requires 0 <= lo <= hi <= |w|
    ensures WindowSum(v, lo, hi) == WindowSum(w, lo, hi) + c * (hi - lo) as real
    decreases hi - lo
  {
    if hi != lo {
      WindowSumShift(w, v, c, lo, hi - 1);
      MulSucc(c, hi - 1 - lo);
    }
  }

  /** `c` added up `k` times; kept linear so that sums over a varying
      number of samples stay out of nonlinear arithmetic. */
  function Times(c: real, k: int): real
    decreases k
  {
    if k <= 0 then 0.0 else Times(c, k - 1) + c
  }

  lemma {:induction false} TimesIsProduct(c: real, k: nat)
    ensures Times(c, k) == c * k as real
  {
    if k > 0 {
      TimesIsProduct(c, k - 1);
      MulSucc(c, k - 1);
    }
  }

  lemma MulSucc(c: real, k: int)
    ensures c * (k + 1) as real == c * k as real + c
  {
  }

  /** Sums of integral values are integral. */
  lemma IntegralAdd(x: real, c: real)
    requires IsIntegral(x) && IsIntegral(c)
    ensures IsIntegral(x + c)
  {
    assert x + c == (x.Floor + c.Floor) as real;
  }

  /** A Euclidean quotient of a non-negative dividend is non-negative. */
  lemma QuotientNonNegative(b: int, d: int, q: int, r: int)
    requires 0 <= b && 0 <= r < d
    requires b == q * d + r
    ensures 0 <= q
  {
    assert (-q) * d == -(q * d);
    if q < 0 {
      MulAtLeast(-q, d);
    }
  }

  /** Multiplication distributes over addition. */
  lemma Distribute(x: int, y: int, z: int)
    ensures x * (y + z) == x * y + x * z
    ensures (y + z) * x == y * x + z * x
  {
  }

  /** Two quotients with remainders in `[0, d)` coincide. */
  lemma QuotientUnique(a: int, d: int, q1: int, q2: int)
    requires 0 < d
    requires 0 <= a - q1 * d < d
    requires 0 <= a - q2 * d < d
    ensures q1 == q2
  {
    assert (q2 - q1) * d == q2 * d - q1 * d;
    assert (q1 - q2) * d == q1 * d - q2 * d;
    if q1 < q2 {
      MulAtLeast(q2 - q1, d);
    } else if q2 < q1 {
      MulAtLeast(q1 - q2, d);
    }
  }

  /** A positive multiple of a positive `d` is at least `d`. */
  lemma MulAtLeast(k: int, d: int)
    requires 1 <= k && 0 < d
    ensures k * d >= d
  {
    assert k * d == (k - 1) * d + d;
  }

  /** `b` added up `k` times, for an integer `b`, is the integer `b * k`. */
  lemma {:induction false} TimesOfInt(b: int, k: nat)
    ensures Times(b as real, k) == (b * k) as real
  {
    if k > 0 {
      TimesOfInt(b, k - 1);
      assert b * k == b * (k - 1) + b;
    }
  }

  /** Products of integers are the same seen as integers or as reals. */
  lemma IntProduct(x: int, k: int)
    ensures x as real * k as real == (x * k) as real
  {
  }

  /** The mean of `n` samples equal to the integer `b` is `b`. */
  lemma MeanOfFlat(b: int, n: int)
    requires 0 < n
    ensures (b * n) as real / n as real == b as real
  {
    IntProduct(b, n);
  }
}
