/**
 * The first pass of `calculateBaselineAndStdDev`: a scan of the first
 * `readoutWindow` samples that records every run of samples above the
 * threshold as an excluded region `[start, end]` (both ends inclusive).
 *
 * The recorded bounds are `start + 1` and `end - 1` where `start` and `end`
 * are the first indices on either side that FAIL the test (or `-1` and
 * `readoutWindow` at the edges), so a recorded region is the whole maximal
 * run of above-threshold samples, not only its interior.
 */
module Regions {

  /** One excluded region, as pushed onto `signal_start` / `signal_end`. */
  datatype Region = Region(start: int, end: int)

  predicate InRegion(r: Region, j: int) {
    r.start <= j <= r.end
  }

  /** Index `j` lies inside some recorded region. */
  predicate Covered(rs: seq<Region>, j: int) {
    exists k :: 0 <= k < |rs| && InRegion(rs[k], j)
  }

  /** The region lies inside the scanned window and holds only samples
      above the threshold. */
  predicate WellPlaced(w: seq<real>, t: real, rw: int, r: Region)
    requires rw <= |w|
  {
    && 0 <= r.start <= r.end < rw
    && forall j :: r.start <= j <= r.end ==> w[j] > t
  }

  /** The region cannot be extended: its neighbours inside the window are
      at or below the threshold. */
  predicate Maximal(w: seq<real>, t: real, rw: int, r: Region)
    requires rw <= |w|
    requires 0 <= r.start <= r.end < rw
  {
    && (r.start > 0 ==> w[r.start - 1] <= t)
    && (r.end + 1 < rw ==> w[r.end + 1] <= t)
  }

  /** Regions come in index order with at least one sample between two of
      them. */
  predicate Separated(rs: seq<Region>) {
    forall a, b :: 0 <= a < b < |rs| ==> rs[a].end + 1 < rs[b].start
  }

  /** `rs` is the list of maximal above-threshold runs of `w[..rw]`, in
      order, restricted to indices from `lo` on. */
  predicate RunsFrom(w: seq<real>, t: real, rw: int, rs: seq<Region>, lo: int)
    requires rw <= |w|
    requires 0 <= lo
  {
    && (forall k :: 0 <= k < |rs| ==> WellPlaced(w, t, rw, rs[k]) && Maximal(w, t, rw, rs[k]))
    && (forall k :: 0 <= k < |rs| ==> lo <= rs[k].start)
    && Separated(rs)
    && (forall j {:trigger Covered(rs, j)} :: lo <= j < rw ==> (w[j] > t <==> Covered(rs, j)))
  }

  /** `rs` is the list of maximal above-threshold runs of `w[..rw]`. */
  predicate IsRunDecomposition(w: seq<real>, t: real, rw: int, rs: seq<Region>)
    requires rw <= |w|
  {
    RunsFrom(w, t, rw, rs, 0)
  }

  lemma CoveredAppend(rs: seq<Region>, r: Region, j: int)
    ensures Covered(rs + [r], j) <==> Covered(rs, j) || InRegion(r, j)
  {
    if Covered(rs, j) {
      var k :| 0 <= k < |rs| && InRegion(rs[k], j);
      assert (rs + [r])[k] == rs[k];
    }
    if InRegion(r, j) {
      assert (rs + [r])[|rs|] == r;
    }
    if Covered(rs + [r], j) {
      var k :| 0 <= k < |rs| + 1 && InRegion((rs + [r])[k], j);
      if k < |rs| {
        assert (rs + [r])[k] == rs[k];
      }
    }
  }

  /** What the scan has established when its cursor is at `i`: the regions
      recorded so far are the runs of `w[..i]`, and index `i - 1`, which the
      cursor has passed, is not above the threshold. */
  predicate ScanInvariant(w: seq<real>, t: real, rw: int, rs: seq<Region>, i: int)
    requires rw <= |w|
  {
    && 0 <= i && (i <= rw + 1 || i == 0)
    && (0 < i <= rw ==> w[i - 1] <= t)
    && (forall k :: 0 <= k < |rs| ==>
          WellPlaced(w, t, rw, rs[k]) && Maximal(w, t, rw, rs[k]) && rs[k].end + 2 <= i)
    && Separated(rs)
    && (forall j :: 0 <= j < i && j < rw ==> (w[j] > t <==> Covered(rs, j)))
  }

  /** Recording the run `[i, end - 1]` and moving the cursor past `end`. */
  lemma ScanStepRun(w: seq<real>, t: real, rw: int, rs: seq<Region>, i: int, end: int)
    requires rw <= |w|
    requires ScanInvariant(w, t, rw, rs, i)
    requires 0 <= i < end <= rw
    requires forall j :: i <= j < end ==> w[j] > t
    requires end < rw ==> w[end] <= t
    ensures ScanInvariant(w, t, rw, rs + [Region(i, end - 1)], end + 1)
  {
    var r := Region(i, end - 1);
    var rs' := rs + [r];
    forall k | 0 <= k < |rs'|
      ensures WellPlaced(w, t, rw, rs'[k]) && Maximal(w, t, rw, rs'[k]) && rs'[k].end + 2 <= end + 1
    {
      if k < |rs| {
        assert rs'[k] == rs[k];
      }
    }
    forall j | 0 <= j < end + 1 && j < rw
      ensures w[j] > t <==> Covered(rs', j)
    {
      CoveredAppend(rs, r, j);
      if j >= i {
        assert forall k :: 0 <= k < |rs| ==> !InRegion(rs[k], j);
      }
    }
  }

  /** Passing over a sample at or below the threshold. */
  lemma ScanStepBelow(w: seq<real>, t: real, rw: int, rs: seq<Region>, i: int)
    requires rw <= |w|
    requires ScanInvariant(w, t, rw, rs, i)
    requires 0 <= i < rw
    requires w[i] <= t
    ensures ScanInvariant(w, t, rw, rs, i + 1)
  {
    assert forall k :: 0 <= k < |rs| ==> !InRegion(rs[k], i);
  }

  /** The backward walk: starting at `i`, step left while the sample is
      above the threshold. The result is the nearest index at or before `i`
      whose sample is at or below it, or `-1` when there is none. */
  method WalkBack(wave: seq<real>, i: int, thres: real) returns (start: int)
    requires 0 <= i < |wave|
    ensures -1 <= start <= i
    ensures start >= 0 ==> wave[start] <= thres
    ensures forall j :: start < j <= i ==> wave[j] > thres
  {
    start := i;
    while start >= 0 && wave[start] > thres
      invariant -1 <= start <= i
      invariant forall j :: start < j <= i ==> wave[j] > thres
    {
      start := start - 1;
    }
  }

  /** The forward walk: starting at `i`, step right while inside the window
      and the sample is above the threshold. The result is the nearest index
      at or after `i` whose sample is at or below it, or `readoutWindow` when
      the window ends first. */
  method WalkForward(wave: seq<real>, readoutWindow: int, i: int, thres: real) returns (end: int)
    requires 0 <= i <= readoutWindow <= |wave|
    ensures i <= end <= readoutWindow
    ensures end < readoutWindow ==> wave[end] <= thres
    ensures forall j :: i <= j < end ==> wave[j] > thres
  {
    end := i;
    while end < readoutWindow && wave[end] > thres
      invariant i <= end <= readoutWindow
      invariant forall j :: i <= j < end ==> wave[j] > thres
    {
      end := end + 1;
    }
  }

  /**
   * The region scan of `calculateBaselineAndStdDev`. Every above-threshold
   * sample of the window ends up in exactly one recorded region, every
   * region is a whole maximal run, and the regions are ordered and
   * separated. Only indices below `readoutWindow` are read.
   */
  method ScanRegions(wave: seq<real>, readoutWindow: int, thres: real) returns (regions: seq<Region>)
    requires readoutWindow <= |wave|
    ensures IsRunDecomposition(wave, thres, readoutWindow, regions)
    ensures regions == [] <==> forall j :: 0 <= j < readoutWindow ==> wave[j] <= thres
  {
    regions := [];
    var i := 0;
    while i < readoutWindow
      invariant ScanInvariant(wave, thres, readoutWindow, regions, i)
    {
      if wave[i] > thres {
        var start := WalkBack(wave, i, thres);
        var end := WalkForward(wave, readoutWindow, i, thres);
        // the backward walk stops at once: index i - 1 was already passed
        assert start == i - 1;
        ScanStepRun(wave, thres, readoutWindow, regions, i, end);
        regions := regions + [Region(start + 1, end - 1)];
        i := end;
      } else {
        ScanStepBelow(wave, thres, readoutWindow, regions, i);
      }
      i := i + 1;
    }
    ScanDone(wave, thres, readoutWindow, regions, i);
  }

  /** Once the cursor has passed the window, the recorded regions are its
      run decomposition. */
  lemma ScanDone(w: seq<real>, t: real, rw: int, rs: seq<Region>, i: int)
    requires rw <= |w|
    requires ScanInvariant(w, t, rw, rs, i)
    requires rw <= i
    ensures IsRunDecomposition(w, t, rw, rs)
    ensures rs == [] <==> forall j :: 0 <= j < rw ==> w[j] <= t
  {
    if rs != [] {
      FirstRegionStartsFirst(w, t, rw, rs, 0);
    } else {
      forall j | 0 <= j < rw
        ensures w[j] <= t
      {
        assert !Covered(rs, j);
      }
    }
  }

  /** Every above-threshold sample of the window lies in exactly one region
      of a run decomposition; samples at or below it lie in none. */
  lemma ExactlyOneRegion(w: seq<real>, t: real, rw: int, rs: seq<Region>, j: int)
    requires rw <= |w|
    requires IsRunDecomposition(w, t, rw, rs)
    requires 0 <= j < rw
    ensures w[j] > t ==> exists k :: 0 <= k < |rs| && InRegion(rs[k], j)
                                     && forall k' :: 0 <= k' < |rs| && InRegion(rs[k'], j) ==> k' == k
    ensures w[j] <= t ==> forall k :: 0 <= k < |rs| ==> !InRegion(rs[k], j)
  {
    if w[j] > t {
      assert Covered(rs, j);
      var k :| 0 <= k < |rs| && InRegion(rs[k], j);
      forall k' | 0 <= k' < |rs| && InRegion(rs[k'], j)
        ensures k' == k
      {
      }
    }
  }

  /** There is only one run decomposition from a given index: whatever
      satisfies the characterisation is the scan's result. */
  lemma {:induction false} RunsFromUnique(w: seq<real>, t: real, rw: int, rs1: seq<Region>, rs2: seq<Region>, lo: int)
    requires rw <= |w|
    requires 0 <= lo
    requires RunsFrom(w, t, rw, rs1, lo)
    requires RunsFrom(w, t, rw, rs2, lo)
    ensures rs1 == rs2
    decreases |rs1| + |rs2|
  {
    if rs1 == [] && rs2 == [] {
    } else if rs1 == [] {
      FirstRegionStartsFirst(w, t, rw, rs2, lo);
      CoverageAt(w, t, rw, rs1, lo, rs2[0].start);
      assert false;
    } else if rs2 == [] {
      FirstRegionStartsFirst(w, t, rw, rs1, lo);
      CoverageAt(w, t, rw, rs2, lo, rs1[0].start);
      assert false;
    } else {
      var a, b := rs1[0], rs2[0];
      FirstRegionStartsFirst(w, t, rw, rs1, lo);
      FirstRegionStartsFirst(w, t, rw, rs2, lo);
      assert a.start == b.start by {
        assert WellPlaced(w, t, rw, a) && WellPlaced(w, t, rw, b);
        assert w[a.start] > t && w[b.start] > t;
      }
      if a.end < b.end {
        assert false;
      } else if b.end < a.end {
        assert false;
      }
      TailRuns(w, t, rw, rs1, lo);
      TailRuns(w, t, rw, rs2, lo);
      RunsFromUnique(w, t, rw, rs1[1..], rs2[1..], a.end + 1);
      assert rs1 == [a] + rs1[1..];
      assert rs2 == [b] + rs2[1..];
    }
  }

  lemma CoverageAt(w: seq<real>, t: real, rw: int, rs: seq<Region>, lo: int, j: int)
    requires rw <= |w|
    requires 0 <= lo
    requires RunsFrom(w, t, rw, rs, lo)
    requires lo <= j < rw
    ensures w[j] > t <==> Covered(rs, j)
  {
  }

  /** The first region of a decomposition starts at the first
      above-threshold sample from `lo` on. */
  lemma FirstRegionStartsFirst(w: seq<real>, t: real, rw: int, rs: seq<Region>, lo: int)
    requires rw <= |w|
    requires 0 <= lo
    requires RunsFrom(w, t, rw, rs, lo)
    requires rs != []
    ensures lo <= rs[0].start < rw && w[rs[0].start] > t
    ensures forall j :: lo <= j < rs[0].start ==> w[j] <= t
  {
    assert WellPlaced(w, t, rw, rs[0]);
    forall j | lo <= j < rs[0].start
      ensures w[j] <= t
    {
      forall k | 0 <= k < |rs|
        ensures !InRegion(rs[k], j)
      {
        if k > 0 {
          assert rs[0].end + 1 < rs[k].start;
        }
      }
      assert !Covered(rs, j);
    }
  }

  /** Dropping the first region leaves the decomposition of the rest. */
  lemma TailRuns(w: seq<real>, t: real, rw: int, rs: seq<Region>, lo: int)
    requires rw <= |w|
    requires 0 <= lo
    requires RunsFrom(w, t, rw, rs, lo)
    requires rs != []
    ensures RunsFrom(w, t, rw, rs[1..], rs[0].end + 1)
  {
    var tl := rs[1..];
    forall k | 0 <= k < |tl|
      ensures rs[0].end + 1 <= tl[k].start
    {
      assert tl[k] == rs[k + 1];
    }
    forall j | rs[0].end + 1 <= j < rw
      ensures w[j] > t <==> Covered(tl, j)
    {
      if Covered(rs, j) {
        var k :| 0 <= k < |rs| && InRegion(rs[k], j);
        assert k != 0;
        assert tl[k - 1] == rs[k];
      }
      if Covered(tl, j) {
        var k :| 0 <= k < |tl| && InRegion(tl[k], j);
        assert rs[k + 1] == tl[k];
      }
    }
  }

  /** A window holding a single run of above-threshold samples `[s, e]` is
      recorded as exactly that run, its first and last samples included. */
  lemma SingleRun(w: seq<real>, t: real, rw: int, s: int, e: int, rs: seq<Region>)
    requires 0 <= s <= e < rw <= |w|
    requires forall j :: 0 <= j < rw ==> (w[j] > t <==> s <= j <= e)
    requires IsRunDecomposition(w, t, rw, rs)
    ensures rs == [Region(s, e)]
  {
    var one := [Region(s, e)];
    forall j | 0 <= j < rw
      ensures w[j] > t <==> Covered(one, j)
    {
      if s <= j <= e {
        assert InRegion(one[0], j);
      }
    }
    assert IsRunDecomposition(w, t, rw, one);
    RunsFromUnique(w, t, rw, rs, one, 0);
  }

  /** A three-sample pulse at indices 2..4 is recorded as `[2, 4]`, not as
      its interior `[3, 3]`. */
  lemma PulseExample(rs: seq<Region>)
    requires IsRunDecomposition([0.0, 0.0, 50.0, 50.0, 50.0, 0.0], 10.0, 6, rs)
    ensures rs == [Region(2, 4)]
  {
    var w := [0.0, 0.0, 50.0, 50.0, 50.0, 0.0];
    forall j | 0 <= j < 6
      ensures w[j] > 10.0 <==> 2 <= j <= 4
    {
    }
    SingleRun(w, 10.0, 6, 2, 4, rs);
  }
}
