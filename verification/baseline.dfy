/**
 * The two skip passes of `calculateBaselineAndStdDev` and the functional
 * specification they meet. Both passes walk the first `readoutWindow`
 * samples with a cursor `idx` into the region list: when the scan index
 * reaches the start of the next region it jumps to that region's end, and
 * every other sample is accumulated. The point of the model is that the
 * accumulated samples are exactly the samples of the window that are at or
 * below the threshold (`Kept`), so the result does not depend on the
 * region bookkeeping at all.
 */
module Baseline {
  import opened Numeric
  import opened Regions

  /** Indices below `n` whose sample is at or below the threshold, in
      increasing order. */
  function Kept(w: seq<real>, t: real, n: int): seq<int>
    requires n <= |w|
    decreases n
  {
    if n <= 0 then [] else Kept(w, t, n - 1) + (if w[n - 1] <= t then [n - 1] else [])
  }

  /** The kept indices are exactly the window indices whose sample is at or
      below the threshold, each listed once, in increasing order. */
  lemma {:induction false} KeptIsBelowSet(w: seq<real>, t: real, n: int)
    requires n <= |w|
    ensures forall j :: j in Kept(w, t, n) <==> 0 <= j < n && w[j] <= t
    ensures forall a, b :: 0 <= a < b < |Kept(w, t, n)| ==> Kept(w, t, n)[a] < Kept(w, t, n)[b]
    decreases n
  {
    if n > 0 {
      KeptIsBelowSet(w, t, n - 1);
      var ks := Kept(w, t, n - 1);
      forall a | 0 <= a < |ks|
        ensures ks[a] < n - 1
      {
        assert ks[a] in ks;
      }
    }
  }

  /** Sum of the kept samples below `n`, accumulated left to right. */
  function KeptSum(w: seq<real>, t: real, n: int): real
    requires n <= |w|
    decreases n
  {
    if n <= 0 then 0.0 else KeptSum(w, t, n - 1) + (if w[n - 1] <= t then w[n - 1] else 0.0)
  }

  /** Sum of the squared deviations from `m` of the kept samples below `n`. */
  function KeptSqDev(w: seq<real>, t: real, n: int, m: real): real
    requires n <= |w|
    decreases n
  {
    if n <= 0 then 0.0
    else KeptSqDev(w, t, n - 1, m) + (if w[n - 1] <= t then (w[n - 1] - m) * (w[n - 1] - m) else 0.0)
  }

  lemma {:induction false} KeptSqDevNonNegative(w: seq<real>, t: real, n: int, m: real)
    requires n <= |w|
    ensures KeptSqDev(w, t, n, m) >= 0.0
    decreases n
  {
    if n > 0 {
      KeptSqDevNonNegative(w, t, n - 1, m);
      var d := w[n - 1] - m;
      assert d * d >= 0.0;
    }
  }

  /** Bessel-corrected variance of the kept samples around `m`; `0` when
      fewer than two samples are kept. */
  function SampleVariance(w: seq<real>, t: real, n: int, m: real): (v: real)
    requires n <= |w|
    ensures v >= 0.0
    ensures |Kept(w, t, n)| <= 1 ==> v == 0.0

  {
    KeptSqDevNonNegative(w, t, n, m);
    var count := |Kept(w, t, n)|;
    if count > 1 then KeptSqDev(w, t, n, m) / (count - 1) as real else 0.0
  }

  /** The `std::pair<float, float>` returned by `calculateBaselineAndStdDev`. */
  datatype Stats = Stats(mean: real, stdDev: real)

  /**
   * What `calculateBaselineAndStdDev(wave, rw, t)` computes, stated without
   * regions: the mean of the window samples at or below `t` (left at `0`
   * when there is none) and the square root of their Bessel-corrected
   * variance (`0` when fewer than two). `sqrt` stands for `std::sqrt`.
   */
  function BaselineAndStdDev(w: seq<real>, rw: int, t: real, sqrt: real -> real): (s: Stats)
    requires rw <= |w|
    ensures |Kept(w, t, rw)| == 0 ==> s.mean == 0.0
    ensures |Kept(w, t, rw)| > 0 ==> s.mean == KeptSum(w, t, rw) / |Kept(w, t, rw)| as real
    ensures |Kept(w, t, rw)| <= 1 ==> s.stdDev == 0.0
    ensures |Kept(w, t, rw)| > 1 ==> s.stdDev == sqrt(SampleVariance(w, t, rw, s.mean))
  {
    var count := |Kept(w, t, rw)|;
    var sum := KeptSum(w, t, rw);
    KeptSumOfNone(w, t, rw);
    // the division is skipped when nothing was accumulated
    var mean := if count != 0 then sum / count as real else sum;
    Stats(mean, if count > 1 then sqrt(SampleVariance(w, t, rw, mean)) else 0.0)
  }

  /** With nothing kept the sum is `0`. */
  lemma {:induction false} KeptSumOfNone(w: seq<real>, t: real, n: int)
    requires n <= |w|
    ensures |Kept(w, t, n)| == 0 ==> KeptSum(w, t, n) == 0.0
    decreases n
  {
    if n > 0 {
      KeptSumOfNone(w, t, n - 1);
    }
  }

  /** The skip-pass cursor at scan index `i`: regions before `idx` end
      before `i`, the others start at or after `i`. */
  predicate Cursor(rs: seq<Region>, i: int, idx: int) {
    && 0 <= idx <= |rs|
    && (forall k :: 0 <= k < idx ==> rs[k].end < i)
    && (forall k :: idx <= k < |rs| ==> i <= rs[k].start)
  }

  /** Jumping over a stretch of above-threshold samples keeps nothing. */
  lemma {:induction false} KeptOverRun(w: seq<real>, t: real, lo: int, hi: int, m: real)
    requires 0 <= lo <= hi <= |w|
    requires forall j :: lo <= j < hi ==> w[j] > t
    ensures Kept(w, t, hi) == Kept(w, t, lo)
    ensures KeptSum(w, t, hi) == KeptSum(w, t, lo)
    ensures KeptSqDev(w, t, hi, m) == KeptSqDev(w, t, lo, m)
    decreases hi - lo
  {
    if hi > lo {
      KeptOverRun(w, t, lo, hi - 1, m);
    }
  }

  /** The jump branch of a skip pass: the region at the cursor starts at
      `i`; jumping past its end skips only above-threshold samples. */
  lemma SkipStep(w: seq<real>, t: real, rw: int, rs: seq<Region>, i: int, idx: int, m: real)
    requires rw <= |w|
    requires IsRunDecomposition(w, t, rw, rs)
    requires Cursor(rs, i, idx)
    requires 0 <= i < rw
    requires idx < |rs| && i == rs[idx].start
    ensures i <= rs[idx].end < rw
    ensures Cursor(rs, rs[idx].end + 1, idx + 1)
    ensures Kept(w, t, rs[idx].end + 1) == Kept(w, t, i)
    ensures KeptSum(w, t, rs[idx].end + 1) == KeptSum(w, t, i)
    ensures KeptSqDev(w, t, rs[idx].end + 1, m) == KeptSqDev(w, t, i, m)
  {
    assert WellPlaced(w, t, rw, rs[idx]);
    KeptOverRun(w, t, i, rs[idx].end + 1, m);
  }

  /** The accumulate branch of a skip pass: a sample the cursor does not
      jump over is at or below the threshold. */
  lemma KeepStep(w: seq<real>, t: real, rw: int, rs: seq<Region>, i: int, idx: int)
    requires rw <= |w|
    requires IsRunDecomposition(w, t, rw, rs)
    requires Cursor(rs, i, idx)
    requires 0 <= i < rw
    requires !(idx < |rs| && i == rs[idx].start)
    ensures w[i] <= t
    ensures Cursor(rs, i + 1, idx)
  {
    forall k | idx <= k < |rs|
      ensures i < rs[k].start
    {
      if k > idx {
        assert WellPlaced(w, t, rw, rs[idx]);
        assert rs[idx].end + 1 < rs[k].start;
      }
    }
    assert !Covered(rs, i);
  }

  /**
   * The mean pass (first skip pass): the indices it accumulates are
   * exactly the kept indices, so its count and sum are theirs.
   */
  method MeanPass(wave: seq<real>, readoutWindow: int, thres: real, regions: seq<Region>)
    returns (sum: real, numPoints: int, ghost visited: seq<int>)
    requires readoutWindow <= |wave|
    requires IsRunDecomposition(wave, thres, readoutWindow, regions)
    ensures visited == Kept(wave, thres, readoutWindow)
    ensures numPoints == |visited|
    ensures sum == KeptSum(wave, thres, readoutWindow)
  {
    sum, numPoints, visited := 0.0, 0, [];
    var idx := 0;
    var i := 0;
    while i < readoutWindow
      invariant 0 <= i && (i <= readoutWindow || i == 0)
      invariant Cursor(regions, i, idx)
      invariant visited == Kept(wave, thres, i)
      invariant numPoints == |visited|
      invariant sum == KeptSum(wave, thres, i)
    {
      if idx < |regions| && i == regions[idx].start {
        SkipStep(wave, thres, readoutWindow, regions, i, idx, 0.0);
        i := regions[idx].end;
        idx := idx + 1;
      } else {
        KeepStep(wave, thres, readoutWindow, regions, i, idx);
        assert Kept(wave, thres, i + 1) == visited + [i];
        assert KeptSum(wave, thres, i + 1) == sum + wave[i];
        sum := sum + wave[i];
        numPoints := numPoints + 1;
        visited := visited + [i];
      }
      i := i + 1;
    }
  }

  /**
   * The variance pass (second skip pass): it visits the same indices as the
   * mean pass and sums their squared deviations from `mean`.
   */
  method VariancePass(wave: seq<real>, readoutWindow: int, thres: real, regions: seq<Region>, mean: real)
    returns (sumSq: real, ghost visited: seq<int>)
    requires readoutWindow <= |wave|
    requires IsRunDecomposition(wave, thres, readoutWindow, regions)
    ensures visited == Kept(wave, thres, readoutWindow)
    ensures sumSq == KeptSqDev(wave, thres, readoutWindow, mean)
  {
    sumSq, visited := 0.0, [];
    var idx := 0;
    var i := 0;
    while i < readoutWindow
      invariant 0 <= i && (i <= readoutWindow || i == 0)
      invariant Cursor(regions, i, idx)
      invariant visited == Kept(wave, thres, i)
      invariant sumSq == KeptSqDev(wave, thres, i, mean)
    {
      if idx < |regions| && i == regions[idx].start {
        SkipStep(wave, thres, readoutWindow, regions, i, idx, mean);
        i := regions[idx].end;
        idx := idx + 1;
      } else {
        KeepStep(wave, thres, readoutWindow, regions, i, idx);
        assert Kept(wave, thres, i + 1) == visited + [i];
        assert KeptSqDev(wave, thres, i + 1, mean) == sumSq + (wave[i] - mean) * (wave[i] - mean);
        sumSq := sumSq + (wave[i] - mean) * (wave[i] - mean);
        visited := visited + [i];
      }
      i := i + 1;
    }
  }

  /**
   * `calculateBaselineAndStdDev`: region scan, mean pass, variance pass.
   * Its result is the region-free specification `BaselineAndStdDev`.
   */
  method CalculateBaselineAndStdDev(wave: seq<real>, readoutWindow: int, thres: real, sqrt: real -> real)
    returns (baseline: real, stdDev: real)
    requires readoutWindow <= |wave|
    ensures Stats(baseline, stdDev) == BaselineAndStdDev(wave, readoutWindow, thres, sqrt)
  {
    var regions := ScanRegions(wave, readoutWindow, thres);
    var sum, numPoints;
    ghost var visited;
    sum, numPoints, visited := MeanPass(wave, readoutWindow, thres, regions);
    baseline := sum;
    if numPoints != 0 {
      baseline := baseline / numPoints as real;
    }
    var variance;
    variance, visited := VariancePass(wave, readoutWindow, thres, regions, baseline);
    stdDev := 0.0;
    if numPoints > 1 {
      variance := variance / (numPoints - 1) as real;
      stdDev := sqrt(variance);
    }
  }

  /** With no sample of the window above the threshold, every window index
      is kept, so the mean is the plain average of `w[..rw]`, and an empty
      window gives `(0, 0)`. */
  lemma NoPulseBaseline(w: seq<real>, rw: int, t: real, sqrt: real -> real)
    requires rw <= |w|
    requires forall j :: 0 <= j < rw ==> w[j] <= t
    ensures rw > 0 ==> BaselineAndStdDev(w, rw, t, sqrt).mean == WindowSum(w, 0, rw) / rw as real
    ensures rw <= 0 ==> BaselineAndStdDev(w, rw, t, sqrt) == Stats(0.0, 0.0)
  {
    if rw > 0 {
      KeptAllBelow(w, t, rw);
    }
  }

  lemma {:induction false} KeptAllBelow(w: seq<real>, t: real, n: int)
    requires 0 <= n <= |w|
    requires forall j :: 0 <= j < n ==> w[j] <= t
    ensures |Kept(w, t, n)| == n
    ensures KeptSum(w, t, n) == WindowSum(w, 0, n)
    decreases n
  {
    if n > 0 {
      KeptAllBelow(w, t, n - 1);
    }
  }

  /** The result depends on `w[..rw]` only: the window bound is the only
      memory the routine reads. */
  lemma BaselineReadsOnlyWindow(w1: seq<real>, w2: seq<real>, rw: int, t: real, sqrt: real -> real)
    requires rw <= |w1| && rw <= |w2|
    requires forall j :: 0 <= j < rw ==> w1[j] == w2[j]
    ensures BaselineAndStdDev(w1, rw, t, sqrt) == BaselineAndStdDev(w2, rw, t, sqrt)
  {
    var mean := BaselineAndStdDev(w1, rw, t, sqrt).mean;
    KeptWindowOnly(w1, w2, t, rw, mean);
  }

  lemma {:induction false} KeptWindowOnly(w1: seq<real>, w2: seq<real>, t: real, n: int, m: real)
    requires n <= |w1| && n <= |w2|
    requires forall j :: 0 <= j < n ==> w1[j] == w2[j]
    ensures Kept(w1, t, n) == Kept(w2, t, n)
    ensures KeptSum(w1, t, n) == KeptSum(w2, t, n)
    ensures KeptSqDev(w1, t, n, m) == KeptSqDev(w2, t, n, m)
    decreases n
  {
    if n > 0 {
      KeptWindowOnly(w1, w2, t, n - 1, m);
    }
  }

  /** Shifting every sample and the threshold by `c` keeps the same samples,
      moves the mean by `c` when some sample is kept (it stays `0`
      otherwise), and leaves the deviation unchanged. */
  lemma BaselineShift(w: seq<real>, v: seq<real>, rw: int, t: real, c: real, sqrt: real -> real)
    requires rw <= |w|
    requires IsShift(v, w, c)
    ensures Kept(v, t + c, rw) == Kept(w, t, rw)
    ensures |Kept(w, t, rw)| > 0 ==>
      BaselineAndStdDev(v, rw, t + c, sqrt).mean == BaselineAndStdDev(w, rw, t, sqrt).mean + c
    ensures |Kept(w, t, rw)| == 0 ==>
      BaselineAndStdDev(v, rw, t + c, sqrt).mean == BaselineAndStdDev(w, rw, t, sqrt).mean
    ensures BaselineAndStdDev(v, rw, t + c, sqrt).stdDev == BaselineAndStdDev(w, rw, t, sqrt).stdDev
  {
    KeptShift(w, v, c, t, rw, 0.0);
    ShiftMean(w, v, rw, t, c, sqrt);
    ShiftStdDev(w, v, rw, t, c, sqrt);
  }

  lemma ShiftMean(w: seq<real>, v: seq<real>, rw: int, t: real, c: real, sqrt: real -> real)
    requires rw <= |w|
    requires IsShift(v, w, c)
    ensures BaselineAndStdDev(v, rw, t + c, sqrt).mean
      == BaselineAndStdDev(w, rw, t, sqrt).mean + (if |Kept(w, t, rw)| > 0 then c else 0.0)
  {
    KeptShift(w, v, c, t, rw, 0.0);
    KeptSumShift(w, v, c, t, rw);
    var k := |Kept(w, t, rw)|;
    if k > 0 {
      TimesIsProduct(c, k);
      DivShift(KeptSum(w, t, rw), KeptSum(v, t + c, rw), c, k);
    }
  }

  lemma ShiftStdDev(w: seq<real>, v: seq<real>, rw: int, t: real, c: real, sqrt: real -> real)
    requires rw <= |w|
    requires IsShift(v, w, c)
    ensures BaselineAndStdDev(v, rw, t + c, sqrt).stdDev == BaselineAndStdDev(w, rw, t, sqrt).stdDev
  {
    var m := BaselineAndStdDev(w, rw, t, sqrt).mean;
    KeptShift(w, v, c, t, rw, m);
    ShiftMean(w, v, rw, t, c, sqrt);
    if |Kept(w, t, rw)| > 1 {
      assert SampleVariance(v, t + c, rw, m + c) == SampleVariance(w, t, rw, m);
    }
  }

  lemma DivShift(sw: real, sv: real, c: real, k: int)
    requires k > 0
    requires sv == sw + c * k as real
    ensures sv / k as real == sw / k as real + c
  {
  }

  lemma {:induction false} KeptShift(w: seq<real>, v: seq<real>, c: real, t: real, n: int, m: real)
    requires n <= |w|
    requires IsShift(v, w, c)
    ensures Kept(v, t + c, n) == Kept(w, t, n)
    ensures KeptSqDev(v, t + c, n, m + c) == KeptSqDev(w, t, n, m)
    decreases n
  {
    if n > 0 {
      KeptShift(w, v, c, t, n - 1, m);
      assert v[n - 1] == w[n - 1] + c;
    }
  }

  /** Under a shift by `c` every kept sample, and there are `|Kept|` of
      them, contributes `c` more to the sum. */
  lemma {:induction false} KeptSumShift(w: seq<real>, v: seq<real>, c: real, t: real, n: int)
    requires n <= |w|
    requires IsShift(v, w, c)
    ensures KeptSum(v, t + c, n) == KeptSum(w, t, n) + Times(c, |Kept(w, t, n)|)
    decreases n
  {
    if n > 0 {
      KeptSumShift(w, v, c, t, n - 1);
      assert v[n - 1] == w[n - 1] + c;
    }
  }
}
