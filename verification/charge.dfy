/**
 * The per-waveform arithmetic of the `main` loop: a rough baseline from the
 * first `baselineInterval + 1` samples, the detection threshold handed to
 * `calculateBaselineAndStdDev`, and the signal and background charges
 * written to the `evt` tree. Every sum here is `std::accumulate` with an
 * `int` initial value (`IntAccumulate`), and every window is inclusive.
 */
module Charge {
  import opened Numeric
  import opened Regions
  import opened Baseline

  /** The integer settings read from the configuration file. */
  datatype Config = Config(
    threshold: int,
    readoutWindow: int,
    signalStart: int,
    signalInterval: int,
    baselineInterval: int)

  /** One row of the `evt` tree: branches `sigQ`, `bkgQ` and `dev`. */
  datatype Charges = Charges(sigQ: real, bkgQ: real, dev: real)

  /** The literal by which the signal window's baseline is scaled, whatever
      the configured signal interval. */
  const SignalScale: int := 400

  /** What the loop body relies on without checking: the readout window and
      both inclusive windows lie inside the waveform, and the baseline
      interval is a usable divisor. */
  predicate Admissible(cfg: Config, n: int) {
    && cfg.readoutWindow <= n
    && 0 < cfg.baselineInterval
    && cfg.baselineInterval + 1 <= n
    && 0 <= cfg.signalStart
    && cfg.signalStart <= cfg.signalStart + cfg.signalInterval + 1 <= n
  }

  /** The rough baseline: the `int` sum of the first `bi + 1` samples,
      divided by `bi` in integer arithmetic. Multiplied back by `bi` it is
      within `2 * bi + 1` of the exact sum: the accumulator contributes less
      than `bi + 1` and the truncating division less than `bi`. */
  function RoughBaseline(w: seq<real>, bi: int): (r: int)
    requires 0 < bi < |w|
    ensures ScaledNear(r as real, bi as real, WindowSum(w, 0, bi + 1), (2 * bi + 1) as real)
  {
    var acc := IntAccumulate(w, 0, bi + 1);
    TruncDivApprox(acc, bi, WindowSum(w, 0, bi + 1));
    TruncDiv(acc, bi)
  }

  /** The threshold passed to the region scan: the configured offset above
      the rough baseline. It is a whole number, and `bi` times its distance
      from the offset is within `2 * bi + 1` of the sum of the first
      `bi + 1` samples. */
  function DetectionThreshold(w: seq<real>, cfg: Config): (t: real)
    requires Admissible(cfg, |w|)
    ensures IsIntegral(t)
    ensures var bi := cfg.baselineInterval;
      ScaledNear(t - cfg.threshold as real, bi as real, WindowSum(w, 0, bi + 1), (2 * bi + 1) as real)
  {
    var r := RoughBaseline(w, cfg.baselineInterval);
    IntegralAdd(r as real, cfg.threshold as real);
    r as real + cfg.threshold as real
  }

  /** `q` is within the window length `hi - lo` of the exact sum of
      `w[lo..hi)` minus `mean * scale`. */
  predicate NearExactCharge(q: real, w: seq<real>, lo: int, hi: int, mean: real, scale: real)
    requires 0 <= lo <= hi <= |w|
  {
    Abs(q - (WindowSum(w, lo, hi) - mean * scale)) <= (hi - lo) as real
  }

  /** An inclusive window's int sum minus `mean * scale`. Each step of the
      int accumulator drops less than one unit, so the charge is near the
      exact baseline-subtracted sum. */
  function WindowCharge(w: seq<real>, lo: int, hi: int, mean: real, scale: real): (q: real)
    requires 0 <= lo <= hi <= |w|
    ensures NearExactCharge(q, w, lo, hi, mean, scale)
  {
    IntAccumulate(w, lo, hi) as real - mean * scale
  }

  /** The charges of one line once `calculateBaselineAndStdDev` has
      returned `(mean, dev)`: up to the int accumulator's truncation, the
      exact window sums minus the mean times `400` (signal) and times
      `baselineInterval` (background), over windows of `signalInterval + 1`
      and `baselineInterval + 1` samples. */
  function ChargesFor(w: seq<real>, cfg: Config, mean: real, dev: real): (q: Charges)
    requires Admissible(cfg, |w|)
    ensures q.dev == dev
    ensures NearExactCharge(q.sigQ, w, cfg.signalStart, cfg.signalStart + cfg.signalInterval + 1,
                            mean, SignalScale as real)
    ensures NearExactCharge(q.bkgQ, w, 0, cfg.baselineInterval + 1, mean, cfg.baselineInterval as real)
  {
    var ss, si, bi := cfg.signalStart, cfg.signalInterval, cfg.baselineInterval;
    Charges(
      WindowCharge(w, ss, ss + si + 1, mean, SignalScale as real),
      WindowCharge(w, 0, bi + 1, mean, bi as real),
      dev)
  }

  /**
   * The per-line result of the `main` loop for an already decoded waveform:
   * the charges for the mean and deviation that `calculateBaselineAndStdDev`
   * returns at the detection threshold.
   */
  function WaveformCharges(w: seq<real>, cfg: Config, sqrt: real -> real): (q: Charges)
    requires Admissible(cfg, |w|)
    ensures var m := BaselineAndStdDev(w, cfg.readoutWindow, DetectionThreshold(w, cfg), sqrt);
      && q.dev == m.stdDev
      && NearExactCharge(q.sigQ, w, cfg.signalStart, cfg.signalStart + cfg.signalInterval + 1,
                         m.mean, SignalScale as real)
      && NearExactCharge(q.bkgQ, w, 0, cfg.baselineInterval + 1, m.mean, cfg.baselineInterval as real)
  {
    var m := BaselineAndStdDev(w, cfg.readoutWindow, DetectionThreshold(w, cfg), sqrt);
    ChargesFor(w, cfg, m.mean, m.stdDev)
  }

  /** The loop body of `main` for one line, through the imperative
      `calculateBaselineAndStdDev`. */
  method ProcessWaveform(wave: seq<real>, cfg: Config, sqrt: real -> real) returns (q: Charges)
    requires Admissible(cfg, |wave|)
    ensures q == WaveformCharges(wave, cfg, sqrt)
  {
    var bi := cfg.baselineInterval;
    var baselineTmp := TruncDiv(IntAccumulate(wave, 0, bi + 1), bi) as real;
    var baseline, stdDev := CalculateBaselineAndStdDev(wave, cfg.readoutWindow, baselineTmp + cfg.threshold as real, sqrt);
    assert baselineTmp + cfg.threshold as real == DetectionThreshold(wave, cfg);
    var ss := cfg.signalStart;
    var sigQ := IntAccumulate(wave, ss, ss + cfg.signalInterval + 1) as real - baseline * SignalScale as real;
    var bkgQ := IntAccumulate(wave, 0, bi + 1) as real - baseline * bi as real;
    q := Charges(sigQ, bkgQ, stdDev);
    assert q == ChargesFor(wave, cfg, baseline, stdDev);
    assert Stats(baseline, stdDev) == BaselineAndStdDev(wave, cfg.readoutWindow, DetectionThreshold(wave, cfg), sqrt);
  }

  /** With integral samples the rough baseline is the truncating quotient
      of the exact `bi + 1`-sample sum by `bi`. */
  lemma RoughBaselineOfCounts(w: seq<real>, bi: int)
    requires 0 < bi < |w|
    requires forall k :: 0 <= k <= bi ==> IsIntegral(w[k])
    ensures IsIntegral(WindowSum(w, 0, bi + 1))
    ensures RoughBaseline(w, bi) == TruncDiv(WindowSum(w, 0, bi + 1).Floor, bi)
  {
    IntAccumulateExact(w, 0, bi + 1);
  }

  /** With integral samples in the window the int accumulator is exact:
      the charge is the exact window sum minus the scaled mean. */
  lemma WindowChargeOfCounts(w: seq<real>, lo: int, hi: int, mean: real, scale: real)
    requires 0 <= lo <= hi <= |w|
    requires forall k :: lo <= k < hi ==> IsIntegral(w[k])
    ensures WindowCharge(w, lo, hi, mean, scale) == WindowSum(w, lo, hi) - mean * scale
  {
    IntAccumulateExact(w, lo, hi);
  }

  /**
   * Moving every integral sample by an integral `c`, and the mean with
   * them, moves a window charge by `c * ((hi - lo) - scale)`: the baseline
   * subtraction cancels the pedestal only when the scale equals the
   * window's sample count. For `bkgQ` the scale is `baselineInterval`
   * against `baselineInterval + 1` samples, for `sigQ` it is `400` against
   * `signalInterval + 1`.
   */
  lemma WindowChargeShift(w: seq<real>, v: seq<real>, c: real, lo: int, hi: int, mean: real, scale: real)
    requires IsShift(v, w, c)
    requires IsIntegral(c)
    requires 0 <= lo <= hi <= |w|
    requires forall k :: lo <= k < hi ==> IsIntegral(w[k])
    ensures WindowCharge(v, lo, hi, mean + c, scale)
      == WindowCharge(w, lo, hi, mean, scale) + c * ((hi - lo) as real - scale)
  {
    forall k | lo <= k < hi
      ensures IsIntegral(v[k])
    {
      IntegralAdd(w[k], c);
    }
    IntAccumulateExact(w, lo, hi);
    IntAccumulateExact(v, lo, hi);
    WindowSumShift(w, v, c, lo, hi);
    assert (mean + c) * scale == mean * scale + c * scale;
    assert c * ((hi - lo) as real - scale) == c * (hi - lo) as real - c * scale;
  }

  /** Integer division of `b * (bi + 1)` by `bi` for `b >= 0`: the quotient
      exceeds `b` by `b / bi`. */
  lemma OverDivided(b: int, bi: int)
    requires 0 <= b && 0 < bi
    ensures TruncDiv(b * (bi + 1), bi) == b + b / bi
    ensures 0 <= b / bi
  {
    var q, r := b / bi, b % bi;
    assert b == q * bi + r;
    QuotientNonNegative(b, bi, q, r);
    var a := b * (bi + 1);
    Distribute(b, bi, 1);
    Distribute(bi, b, q);
    assert a - (b + q) * bi == r;
    QuotientUnique(a, bi, TruncDiv(a, bi), b + q);
  }

  /** The rough baseline of a flat pedestal at `b >= 0` overshoots `b`
      by `b / bi`: `bi + 1` samples are summed and divided by `bi`. */
  lemma FlatRoughBaseline(w: seq<real>, bi: int, b: int)
    requires 0 < bi < |w|
    requires 0 <= b
    requires forall k :: 0 <= k < |w| ==> w[k] == b as real
    ensures RoughBaseline(w, bi) == b + b / bi
    ensures b <= RoughBaseline(w, bi)
  {
    IntAccumulateExact(w, 0, bi + 1);
    WindowSumFlat(w, 0, bi + 1, b as real);
    TimesOfInt(b, bi + 1);
    OverDivided(b, bi);
  }

  /** A window of samples all equal to the integer `x`, with the mean at
      `x` and an integer scale `k`, has charge `x * ((hi - lo) - k)`: zero
      only when the scale is the window's sample count. */
  lemma PedestalCharge(w: seq<real>, lo: int, hi: int, x: int, k: int)
    requires 0 <= lo <= hi <= |w|
    requires forall j :: lo <= j < hi ==> w[j] == x as real
    ensures WindowCharge(w, lo, hi, x as real, k as real) == (x * ((hi - lo) - k)) as real
  {
    IntAccumulateExact(w, lo, hi);
    WindowSumFlat(w, lo, hi, x as real);
    TimesOfInt(x, hi - lo);
    PedestalArithmetic(IntAccumulate(w, lo, hi), x, hi - lo, k);
  }

  lemma PedestalArithmetic(acc: int, x: int, n: int, k: int)
    requires acc == x * n
    ensures acc as real - x as real * k as real == (x * (n - k)) as real
  {
    IntProduct(x, k);
    assert x * (n - k) == x * n - x * k;
  }

  /** Squared deviations around the common value of a flat prefix vanish. */
  lemma {:induction false} KeptSqDevFlat(w: seq<real>, t: real, n: int, m: real)
    requires n <= |w|
    requires forall k :: 0 <= k < n ==> w[k] == m
    ensures KeptSqDev(w, t, n, m) == 0.0
    decreases n
  {
    if n > 0 {
      KeptSqDevFlat(w, t, n - 1, m);
    }
  }

  /** A flat pedestal at the integer `b`, entirely at or below the
      threshold, has mean `b` and, with more than one sample, a zero
      variance. */
  lemma FlatStats(w: seq<real>, rw: int, t: real, b: int, sqrt: real -> real)
    requires 0 < rw <= |w|
    requires b as real <= t
    requires forall k :: 0 <= k < |w| ==> w[k] == b as real
    ensures BaselineAndStdDev(w, rw, t, sqrt).mean == b as real
    ensures rw > 1 ==> BaselineAndStdDev(w, rw, t, sqrt).stdDev == sqrt(0.0)
  {
    NoPulseBaseline(w, rw, t, sqrt);
    KeptAllBelow(w, t, rw);
    WindowSumFlat(w, 0, rw, b as real);
    TimesOfInt(b, rw);
    MeanOfFlat(b, rw);
    KeptSqDevFlat(w, t, rw, b as real);
  }

  /** No sample of such a pedestal reaches above the detection threshold. */
  lemma FlatBelowThreshold(w: seq<real>, cfg: Config, b: int)
    requires Admissible(cfg, |w|)
    requires 0 <= b && 0 <= cfg.threshold
    requires forall k :: 0 <= k < |w| ==> w[k] == b as real
    ensures b as real <= DetectionThreshold(w, cfg)
  {
    FlatRoughBaseline(w, cfg.baselineInterval, b);
    var r := RoughBaseline(w, cfg.baselineInterval);
    assert DetectionThreshold(w, cfg) == r as real + cfg.threshold as real;
  }

  /** A waveform that is a flat pedestal at the non-negative integer `b`,
      with a non-negative threshold offset: the rough baseline overshoots
      `b` by `b / baselineInterval`, yet nothing is detected, the mean is
      `b` and the deviation that of a zero variance. */
  lemma FlatPedestal(w: seq<real>, cfg: Config, b: int, sqrt: real -> real)
    requires Admissible(cfg, |w|)
    requires 0 <= b && 0 <= cfg.threshold && 0 < cfg.readoutWindow
    requires forall k :: 0 <= k < |w| ==> w[k] == b as real
    ensures RoughBaseline(w, cfg.baselineInterval) == b + b / cfg.baselineInterval
    ensures BaselineAndStdDev(w, cfg.readoutWindow, DetectionThreshold(w, cfg), sqrt).mean == b as real
    ensures cfg.readoutWindow > 1 ==> WaveformCharges(w, cfg, sqrt).dev == sqrt(0.0)
  {
    FlatRoughBaseline(w, cfg.baselineInterval, b);
    FlatBelowThreshold(w, cfg, b);
    var t := DetectionThreshold(w, cfg);
    FlatStats(w, cfg.readoutWindow, t, b, sqrt);
    assert WaveformCharges(w, cfg, sqrt).dev == BaselineAndStdDev(w, cfg.readoutWindow, t, sqrt).stdDev;
  }

  /** The charges of that flat pedestal are not zero: the background
      window holds `baselineInterval + 1` samples but subtracts the mean
      `baselineInterval` times, so `bkgQ` is `b`; the signal window holds
      `signalInterval + 1` samples against `400`, so `sigQ` is
      `b * (signalInterval + 1 - 400)`. */
  lemma FlatPedestalCharges(w: seq<real>, cfg: Config, b: int, sqrt: real -> real)
    requires Admissible(cfg, |w|)
    requires 0 <= b && 0 <= cfg.threshold && 0 < cfg.readoutWindow
    requires forall k :: 0 <= k < |w| ==> w[k] == b as real
    ensures WaveformCharges(w, cfg, sqrt).bkgQ == b as real
    ensures WaveformCharges(w, cfg, sqrt).sigQ == (b * (cfg.signalInterval + 1 - SignalScale)) as real
  {
    var bi, ss, si := cfg.baselineInterval, cfg.signalStart, cfg.signalInterval;
    FlatPedestal(w, cfg, b, sqrt);
    var m := BaselineAndStdDev(w, cfg.readoutWindow, DetectionThreshold(w, cfg), sqrt);
    assert WaveformCharges(w, cfg, sqrt) == ChargesFor(w, cfg, b as real, m.stdDev);
    PedestalCharge(w, ss, ss + si + 1, b, SignalScale);
    PedestalCharge(w, 0, bi + 1, b, bi);
    assert b * ((bi + 1) - bi) == b;
  }
}
