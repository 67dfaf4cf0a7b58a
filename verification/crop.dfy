/** `Map::center_and_crop`: the coastline is a ring of lon/lat points. Around
    the point at `index` a window of `width_m` by `height_m` metres is cut;
    the walk goes backwards to the first point outside the window, then
    forwards, keeping every point up to and including the next point
    outside, and then samples the rest of the ring more and more sparsely
    the farther its points are from the reference point. */
module CoastMap {
  import opened Utils

  datatype LonLat = LonLat(lon: real, lat: real)

  /** Metres east and north of the reference point. */
  datatype XY = XY(x: real, y: real)

  /** The coastline ring: one column `[lon, lat]` per point. */
  datatype Map = Map(data: seq<LonLat>)

  datatype Bounds = Bounds(minLon: real, maxLon: real, minLat: real, maxLat: real)

  /** The flat local frame around `ref`: `mPerLon` and `mPerLat` are the
      metres per degree at the reference latitude. */
  datatype Projection = Projection(ref: LonLat, mPerLon: real, mPerLat: real)

  // ------------------------------------------------------------ the window

  /** The window: half the width and half the height on each side of `ref`,
      converted to degrees, each pair swapped when it came out reversed
      (a negative size or a negative metres-per-degree). */
  function CropBounds(ref: LonLat, widthM: real, heightM: real, mPerLon: real, mPerLat: real): (b: Bounds)
    requires mPerLon != 0.0 && mPerLat != 0.0
    ensures b.minLon <= b.maxLon && b.minLat <= b.maxLat
    ensures b.maxLon - b.minLon == Abs(widthM / mPerLon) && b.minLon + b.maxLon == 2.0 * ref.lon
    ensures b.maxLat - b.minLat == Abs(heightM / mPerLat) && b.minLat + b.maxLat == 2.0 * ref.lat
  {
    HalfQuotient(widthM, mPerLon);
    HalfQuotient(heightM, mPerLat);
    var lon := MinMax(ref.lon - 0.5 * widthM / mPerLon, ref.lon + 0.5 * widthM / mPerLon);
    var lat := MinMax(ref.lat - 0.5 * heightM / mPerLat, ref.lat + 0.5 * heightM / mPerLat);
    Bounds(lon.0, lon.1, lat.0, lat.1)
  }

  /** The window as the original computes it: each pair of bounds, then a
      swap when they came out reversed. */
  method Window(ref: LonLat, widthM: real, heightM: real, mPerLon: real, mPerLat: real) returns (b: Bounds)
    requires mPerLon != 0.0 && mPerLat != 0.0
    ensures b == CropBounds(ref, widthM, heightM, mPerLon, mPerLat)
  {
    var minLon := ref.lon - 0.5 * widthM / mPerLon;
    var maxLon := ref.lon + 0.5 * widthM / mPerLon;
    if minLon > maxLon {
      minLon, maxLon := maxLon, minLon;
    }
    var minLat := ref.lat - 0.5 * heightM / mPerLat;
    var maxLat := ref.lat + 0.5 * heightM / mPerLat;
    if minLat > maxLat {
      minLat, maxLat := maxLat, minLat;
    }
    b := Bounds(minLon, maxLon, minLat, maxLat);
  }

  /** Halving before or after the division is the same. */
  lemma HalfQuotient(w: real, m: real)
    requires m != 0.0
    ensures 0.5 * w / m == 0.5 * (w / m)
  {
  }

  /** `within_bounds`: closed below, open above, on both coordinates. */
  predicate WithinBounds(b: Bounds, p: LonLat) {
    b.minLon <= p.lon < b.maxLon && b.minLat <= p.lat < b.maxLat
  }

  /** The lower corner is inside a window that is not empty; any point on
      the upper edge of either coordinate is outside. */
  lemma WithinBoundsHalfOpen(b: Bounds, p: LonLat)
    ensures b.minLon < b.maxLon && b.minLat < b.maxLat ==> WithinBounds(b, LonLat(b.minLon, b.minLat))
    ensures p.lon == b.maxLon || p.lat == b.maxLat ==> !WithinBounds(b, p)
  {
  }

  /** A window of non-zero size contains its own centre. */
  lemma RefWithinBounds(ref: LonLat, widthM: real, heightM: real, mPerLon: real, mPerLat: real)
    requires mPerLon != 0.0 && mPerLat != 0.0 && widthM != 0.0 && heightM != 0.0
    ensures WithinBounds(CropBounds(ref, widthM, heightM, mPerLon, mPerLat), ref)
  {
    var b := CropBounds(ref, widthM, heightM, mPerLon, mPerLat);
    assert widthM / mPerLon != 0.0;
    assert heightM / mPerLat != 0.0;
  }

  /** `to_xy`: the offset from the reference point, scaled to metres. */
  function ToXy(proj: Projection, p: LonLat): (r: XY)
    ensures p == proj.ref ==> r == XY(0.0, 0.0)
  {
    XY((p.lon - proj.ref.lon) * proj.mPerLon, (p.lat - proj.ref.lat) * proj.mPerLat)
  }

  // ----------------------------------------------------- the backward scan

  /** The index `k` steps before `index` on a ring of `n` points. */
  function Back(index: nat, k: nat, n: nat): (r: nat)
    requires index < n && k <= n
    ensures r < n
    ensures r == index <==> k == 0 || k == n
  {
    if k <= index then index - k else index + n - k
  }

  /** One step back, wrapping from 0 to `n - 1`. */
  function Prev(i: nat, n: nat): (r: nat)
    requires i < n
    ensures r < n
  {
    if i == 0 then n - 1 else i - 1
  }

  lemma BackStep(index: nat, k: nat, n: nat)
    requires index < n && k < n
    ensures Back(index, k + 1, n) == Prev(Back(index, k, n), n)
  {
  }

  /** The number of steps back from `index`, counting from `k`, to the first
      point outside the window, or `n` when the scan comes round to
      `index` itself. */
  function BackSteps(data: seq<LonLat>, b: Bounds, index: nat, k: nat): (r: nat)
    requires index < |data| && 1 <= k <= |data|
    ensures k <= r <= |data|
    ensures r < |data| ==> !WithinBounds(b, data[Back(index, r, |data|)])
    ensures forall j :: k <= j < r ==> WithinBounds(b, data[Back(index, j, |data|)])
    decreases |data| - k
  {
    if k == |data| || !WithinBounds(b, data[Back(index, k, |data|)]) then k
    else BackSteps(data, b, index, k + 1)
  }

  /** Where the backward scan stops. */
  function Start(data: seq<LonLat>, b: Bounds, index: nat): (r: nat)
    requires index < |data|
    ensures r < |data|
  {
    Back(index, BackSteps(data, b, index, 1), |data|)
  }

  /** The backward scan stops at `index` itself exactly when every other
      point is inside the window; otherwise it stops at a point outside. */
  lemma {:induction false} StartIsIndex(data: seq<LonLat>, b: Bounds, index: nat)
    requires index < |data|
    ensures Start(data, b, index) == index <==>
              forall i :: 0 <= i < |data| && i != index ==> WithinBounds(b, data[i])
    ensures Start(data, b, index) != index ==> !WithinBounds(b, data[Start(data, b, index)])
  {
    var n := |data|;
    var k := BackSteps(data, b, index, 1);
    if Start(data, b, index) == index {
      assert k == n;
      forall i | 0 <= i < n && i != index
        ensures WithinBounds(b, data[i])
      {
        var j := if i < index then index - i else index + n - i;
        assert Back(index, j, n) == i;
      }
    }
  }

  // ------------------------------------------------------ the forward scan

  /** The index `j` steps after `start` on a ring of `n` points. */
  function Fwd(start: nat, j: nat, n: nat): (r: nat)
    requires start < n && j <= n
    ensures r < n && r == (start + j) % n
  {
    ModRange(start + j, n);
    if start + j < n then start + j else start + j - n
  }

  lemma ModRange(a: nat, n: nat)
    requires 0 < n && a < 2 * n
    ensures a % n == if a < n then a else a - n
  {
    if a >= n {
      assert a == 1 * n + (a - n);
    }
  }

  /** The number of steps forward from `start`, counting from `k`, to the
      first point outside the window, or `n` when none is before `start`
      comes round again. */
  function FwdSteps(data: seq<LonLat>, b: Bounds, start: nat, k: nat): (r: nat)
    requires start < |data| && 1 <= k <= |data|
    ensures k <= r <= |data|
    ensures r < |data| ==> !WithinBounds(b, data[Fwd(start, r, |data|)])
    ensures forall j :: k <= j < r ==> WithinBounds(b, data[Fwd(start, j, |data|)])
    decreases |data| - k
  {
    if k == |data| || !WithinBounds(b, data[Fwd(start, k, |data|)]) then k
    else FwdSteps(data, b, start, k + 1)
  }

  /** When some point lies outside the window the forward scan ends on one:
      at worst on `start` itself, one full turn later. */
  lemma ForwardStops(data: seq<LonLat>, b: Bounds, start: nat)
    requires start < |data|
    requires exists i :: 0 <= i < |data| && !WithinBounds(b, data[i])
    ensures !WithinBounds(b, data[Fwd(start, FwdSteps(data, b, start, 1), |data|)])
  {
    var n := |data|;
    var e := FwdSteps(data, b, start, 1);
    if e == n {
      forall i | 0 <= i < n && i != start
        ensures WithinBounds(b, data[i])
      {
        var j := if start < i then i - start else i + n - start;
        assert Fwd(start, j, n) == i;
      }
    }
  }

  // ---------------------------------------------------------- decimation

  /** `step_size`: how many points to skip at distance `dist` from the
      reference point, growing with the distance in multiples of the larger
      side of the window. */
  function StepSize(dist: real, maxDim: real): (r: nat)
    ensures r >= 1
    ensures r in {1, 10, 100, 500, 1000, 2000, 5000}
  {
    if dist < 1.5 * maxDim then 1
    else if dist < 2.0 * maxDim then 10
    else if dist < 2.5 * maxDim then 100
    else if dist < 3.0 * maxDim then 500
    else if dist < 4.0 * maxDim then 1000
    else if dist < 5.0 * maxDim then 2000
    else 5000
  }

  /** A point farther away is never sampled more densely (for a window of
      non-negative size; with a negative one every step is 5000). */
  lemma StepSizeMonotone(d1: real, d2: real, maxDim: real)
    requires d1 <= d2
    ensures StepSize(d1, maxDim) <= StepSize(d2, maxDim)
  {
  }

  /** The thresholds: every point within 1.5 sides is kept, and beyond 5
      sides one point in 5000. */
  lemma StepSizeThresholds(dist: real, maxDim: real)
    requires maxDim > 0.0
    ensures StepSize(dist, maxDim) == 1 <==> dist < 1.5 * maxDim
    ensures StepSize(dist, maxDim) == 10 <==> 1.5 * maxDim <= dist < 2.0 * maxDim
    ensures StepSize(dist, maxDim) == 100 <==> 2.0 * maxDim <= dist < 2.5 * maxDim
    ensures StepSize(dist, maxDim) == 500 <==> 2.5 * maxDim <= dist < 3.0 * maxDim
    ensures StepSize(dist, maxDim) == 1000 <==> 3.0 * maxDim <= dist < 4.0 * maxDim
    ensures StepSize(dist, maxDim) == 2000 <==> 4.0 * maxDim <= dist < 5.0 * maxDim
    ensures StepSize(dist, maxDim) == 5000 <==> 5.0 * maxDim <= dist
  {
  }

  /** The offset between two points of the local frame. */
  function Minus(a: XY, c: XY): XY {
    XY(a.x - c.x, a.y - c.y)
  }

  /** How far the sampler steps from the absolute position `e`; `norm` is
      the Euclidean length. */
  function Step(data: seq<LonLat>, proj: Projection, norm: XY -> real, maxDim: real, e: nat): (r: nat)
    requires |data| > 0
    ensures r >= 1
  {
    var pt := ToXy(proj, data[e % |data|]);
    StepSize(norm(Minus(pt, ToXy(proj, proj.ref))), maxDim)
  }

  /** The positions the decimation loop visits from `e` on, while below
      `stop`. */
  function Decimate(data: seq<LonLat>, proj: Projection, norm: XY -> real, maxDim: real, e: nat, stop: nat): (r: seq<nat>)
    requires |data| > 0
    ensures e < stop <==> r != []
    decreases stop - e
  {
    if e >= stop then []
    else [e] + Decimate(data, proj, norm, maxDim, e + Step(data, proj, norm, maxDim, e), stop)
  }

  /** One round of the decimation loop: visit `e`, then go on from `e`
      plus its step. */
  lemma DecimateStep(data: seq<LonLat>, proj: Projection, norm: XY -> real, maxDim: real, e: nat, stop: nat, step: nat)
    requires |data| > 0 && e < stop && step == Step(data, proj, norm, maxDim, e)
    ensures Decimate(data, proj, norm, maxDim, e, stop) == [e] + Decimate(data, proj, norm, maxDim, e + step, stop)
  {
  }

  /** The visited positions start at `e`, strictly increase and stay below
      `stop`, so the decimation loop ends. */
  lemma {:induction false} DecimateIncreasing(data: seq<LonLat>, proj: Projection, norm: XY -> real, maxDim: real, e: nat, stop: nat)
    requires |data| > 0
    ensures var r := Decimate(data, proj, norm, maxDim, e, stop);
            && (r != [] ==> r[0] == e)
            && (forall i :: 0 <= i < |r| ==> e <= r[i] < stop)
            && Increasing(r)
    decreases stop - e
  {
    if e < stop {
      var e2 := e + Step(data, proj, norm, maxDim, e);
      DecimateIncreasing(data, proj, norm, maxDim, e2, stop);
      var r := Decimate(data, proj, norm, maxDim, e, stop);
      var t := Decimate(data, proj, norm, maxDim, e2, stop);
      assert r == [e] + t;
      assert forall i :: 1 <= i < |r| ==> r[i] == t[i - 1];
    }
  }

  // ------------------------------------------------------------ the whole

  /** The consecutive positions `a`, `a + 1`, …, `c - 1`. */
  function Range(a: nat, c: nat): (r: seq<nat>)
    ensures |r| == if a <= c then c - a else 0
    ensures forall i :: 0 <= i < |r| ==> r[i] == a + i
  {
    seq(if a <= c then c - a else 0, i requires 0 <= i => a + i)
  }

  lemma RangeSnoc(a: nat, c: nat)
    requires a <= c
    ensures Range(a, c + 1) == Range(a, c) + [c]
  {
  }

  /** The points at the absolute positions `idx`, taken round the ring. */
  function Points(data: seq<LonLat>, proj: Projection, idx: seq<nat>): (r: seq<XY>)
    requires |data| > 0
    ensures |r| == |idx|
  {
    if idx == [] then []
    else Points(data, proj, idx[..|idx| - 1]) + [ToXy(proj, data[idx[|idx| - 1] % |data|])]
  }

  /** Each point is the projection of the ring point at its position. */
  lemma {:induction false} PointsAt(data: seq<LonLat>, proj: Projection, idx: seq<nat>, i: nat)
    requires |data| > 0 && i < |idx|
    ensures Points(data, proj, idx)[i] == ToXy(proj, data[idx[i] % |data|])
    decreases |idx|
  {
    if i < |idx| - 1 {
      PointsAt(data, proj, idx[..|idx| - 1], i);
    }
  }

  lemma PointsSnoc(data: seq<LonLat>, proj: Projection, idx: seq<nat>, e: nat)
    requires |data| > 0
    ensures Points(data, proj, idx + [e]) == Points(data, proj, idx) + [ToXy(proj, data[e % |data|])]
  {
    assert (idx + [e])[..|idx|] == idx;
  }

  /** The window, projection and scans of one crop. */
  function CropWindow(m: Map, index: nat, widthM: real, heightM: real, mPerLon: real, mPerLat: real): Bounds
    requires index < |m.data| && mPerLon != 0.0 && mPerLat != 0.0
  {
    CropBounds(m.data[index], widthM, heightM, mPerLon, mPerLat)
  }

  /** The absolute positions the three loops push for window `b`, in
      order: the start, the forward run up to the first point outside, and
      the samples of the rest of the ring. A position `p` stands for the
      point `p % n`. */
  function IndicesIn(data: seq<LonLat>, b: Bounds, proj: Projection, index: nat, maxDim: real, norm: XY -> real): seq<nat>
    requires index < |data|
  {
    var s := Start(data, b, index);
    var e := FwdSteps(data, b, s, 1);
    [s] + Range(s + 1, s + e + 1) + Decimate(data, proj, norm, maxDim, s + e + 1, s + |data|)
  }

  /** The positions of one crop. */
  function CropIndices(m: Map, index: nat, widthM: real, heightM: real, mPerLon: real, mPerLat: real, norm: XY -> real): seq<nat>
    requires index < |m.data| && mPerLon != 0.0 && mPerLat != 0.0
  {
    IndicesIn(m.data, CropWindow(m, index, widthM, heightM, mPerLon, mPerLat),
              Projection(m.data[index], mPerLon, mPerLat), index, Max(widthM, heightM), norm)
  }

  lemma {:induction false} PointsAppend(data: seq<LonLat>, proj: Projection, idx: seq<nat>, more: seq<nat>)
    requires |data| > 0
    ensures Points(data, proj, idx + more) == Points(data, proj, idx) + Points(data, proj, more)
    decreases |more|
  {
    if more == [] {
      assert idx + more == idx;
    } else {
      var front := more[..|more| - 1];
      var last := more[|more| - 1];
      assert more == front + [last];
      assert idx + more == (idx + front) + [last];
      PointsAppend(data, proj, idx, front);
      PointsSnoc(data, proj, idx + front, last);
      PointsSnoc(data, proj, front, last);
    }
  }

  /** `center_and_crop`: the window, then the three loops. The forward scan
      only ends because some point is outside the window, which the caller
      must guarantee. */
  method CenterAndCrop(m: Map, index: nat, widthM: real, heightM: real, mPerLon: real, mPerLat: real, norm: XY -> real)
    returns (result: seq<XY>)
    requires index < |m.data| && mPerLon != 0.0 && mPerLat != 0.0
    requires exists i :: 0 <= i < |m.data| &&
               !WithinBounds(CropWindow(m, index, widthM, heightM, mPerLon, mPerLat), m.data[i])
    ensures result == Points(m.data, Projection(m.data[index], mPerLon, mPerLat),
                             CropIndices(m, index, widthM, heightM, mPerLon, mPerLat, norm))
  {
    var refPoint := m.data[index];
    var b := Window(refPoint, widthM, heightM, mPerLon, mPerLat);
    result := Crop(m.data, b, Projection(refPoint, mPerLon, mPerLat), index, Max(widthM, heightM), norm);
  }

  /** The three loops of `center_and_crop` for window `b`: the points at
      the positions `IndicesIn` lists. */
  method Crop(data: seq<LonLat>, b: Bounds, proj: Projection, index: nat, maxDim: real, norm: XY -> real)
    returns (result: seq<XY>)
    requires index < |data|
    requires exists i :: 0 <= i < |data| && !WithinBounds(b, data[i])
    ensures result == Points(data, proj, IndicesIn(data, b, proj, index, maxDim, norm))
  {
    var start := ScanBack(data, b, index);
    var end;
    result, end := ScanForward(data, b, proj, start);
    var rest := Sample(data, proj, norm, maxDim, end + 1, start + |data|);
    CropPoints(data, b, proj, index, maxDim, norm, start, end, result, rest);
    result := result + rest;
  }

  /** The crop's points are those of the forward run followed by those of
      the samples. */
  lemma CropPoints(data: seq<LonLat>, b: Bounds, proj: Projection, index: nat, maxDim: real, norm: XY -> real,
                   start: nat, end: nat, run: seq<XY>, samples: seq<XY>)
    requires index < |data|
    requires start == Start(data, b, index)
    requires end == start + FwdSteps(data, b, start, 1)
    requires run == Points(data, proj, [start] + Range(start + 1, end + 1))
    requires samples == Points(data, proj, Decimate(data, proj, norm, maxDim, end + 1, start + |data|))
    ensures Points(data, proj, IndicesIn(data, b, proj, index, maxDim, norm)) == run + samples
  {
    var head: seq<nat> := [start] + Range(start + 1, end + 1);
    var tail: seq<nat> := Decimate(data, proj, norm, maxDim, end + 1, start + |data|);
    assert IndicesIn(data, b, proj, index, maxDim, norm) == head + tail;
    PointsAppend(data, proj, head, tail);
  }

  /** The first loop: step back from `index`, wrapping at 0, until the
      point is outside the window or the scan is back at `index`. */
  method ScanBack(data: seq<LonLat>, b: Bounds, index: nat) returns (start: nat)
    requires index < |data|
    ensures start == Start(data, b, index)
  {
    var n := |data|;
    start := index;
    ghost var k: nat := 0;
    while true
      invariant k < n && start == Back(index, k, n)
      invariant BackSteps(data, b, index, 1) == BackSteps(data, b, index, k + 1)
      decreases n - k
    {
      BackStep(index, k, n);
      if start == 0 {
        start := n;
      }
      start := start - 1;
      k := k + 1;
      if start == index || !WithinBounds(b, data[start]) {
        break;
      }
    }
  }

  /** The second loop: push the start, then every following point up to
      and including the first one outside the window. Returns the points
      and the position of the last one. */
  method ScanForward(data: seq<LonLat>, b: Bounds, proj: Projection, start: nat) returns (result: seq<XY>, end: nat)
    requires start < |data|
    requires exists i :: 0 <= i < |data| && !WithinBounds(b, data[i])
    ensures end == start + FwdSteps(data, b, start, 1)
    ensures result == Points(data, proj, [start] + Range(start + 1, end + 1))
  {
    var n := |data|;
    result := [ToXy(proj, data[start])];
    ghost var idx: seq<nat> := [start];
    ghost var e := FwdSteps(data, b, start, 1);
    ForwardStops(data, b, start);
    end := start;
    ModRange(start, n);
    assert idx == [start] + Range(start + 1, end + 1);
    assert result == Points(data, proj, idx);
    while true
      invariant start <= end < start + e
      invariant idx == [start] + Range(start + 1, end + 1)
      invariant result == Points(data, proj, idx)
      decreases start + e - end
    {
      end := end + 1;
      var pt := data[end % n];
      PointsSnoc(data, proj, idx, end);
      result := result + [ToXy(proj, pt)];
      RangeSnoc(start + 1, end);
      idx := idx + [end];
      assert end % n == Fwd(start, end - start, n);
      if !WithinBounds(b, pt) {
        break;
      }
    }
  }

  /** The third loop: from position `from` up to `stop`, push the point and
      step on by its step size. */
  method Sample(data: seq<LonLat>, proj: Projection, norm: XY -> real, maxDim: real, from: nat, stop: nat)
    returns (result: seq<XY>)
    requires |data| > 0
    ensures result == Points(data, proj, Decimate(data, proj, norm, maxDim, from, stop))
  {
    var n := |data|;
    var refXy := ToXy(proj, proj.ref);
    result := [];
    var end := from;
    ghost var taken: seq<nat> := [];
    while end < stop
      invariant Decimate(data, proj, norm, maxDim, from, stop) == taken + Decimate(data, proj, norm, maxDim, end, stop)
      invariant result == Points(data, proj, taken)
      decreases stop - end
    {
      var pt := ToXy(proj, data[end % n]);
      var step := StepSize(norm(Minus(pt, refXy)), maxDim);
      assert step == Step(data, proj, norm, maxDim, end);
      ghost var rest := Decimate(data, proj, norm, maxDim, end + step, stop);
      DecimateStep(data, proj, norm, maxDim, end, stop, step);
      PointsSnoc(data, proj, taken, end);
      result := result + [pt];
      assert taken + ([end] + rest) == (taken + [end]) + rest;
      taken := taken + [end];
      end := end + step;
    }
    assert taken + [] == taken;
  }

  // ------------------------------------------------------------ properties

  /** The crop holds at least the start and the point after it. */
  lemma CropLength(m: Map, index: nat, widthM: real, heightM: real, mPerLon: real, mPerLat: real, norm: XY -> real)
    requires index < |m.data| && mPerLon != 0.0 && mPerLat != 0.0
    ensures |CropIndices(m, index, widthM, heightM, mPerLon, mPerLat, norm)| >= 2
  {
  }

  /** The crop begins where the backward scan stopped and then runs forward
      point by point, every point inside the window, up to the first one
      outside, which it includes. */
  lemma CropForwardRun(m: Map, index: nat, widthM: real, heightM: real, mPerLon: real, mPerLat: real, norm: XY -> real)
    requires index < |m.data| && mPerLon != 0.0 && mPerLat != 0.0
    requires exists i :: 0 <= i < |m.data| &&
               !WithinBounds(CropWindow(m, index, widthM, heightM, mPerLon, mPerLat), m.data[i])
    ensures var b := CropWindow(m, index, widthM, heightM, mPerLon, mPerLat);
            var s := Start(m.data, b, index);
            var e := FwdSteps(m.data, b, s, 1);
            var r := CropIndices(m, index, widthM, heightM, mPerLon, mPerLat, norm);
            && 1 <= e <= |m.data| && |r| > e && r[0] == s
            && (forall j :: 1 <= j <= e ==> r[j] == s + j)
            && (forall j :: 1 <= j < e ==> WithinBounds(b, m.data[r[j] % |m.data|]))
            && !WithinBounds(b, m.data[r[e] % |m.data|])
  {
    var n := |m.data|;
    var b := CropWindow(m, index, widthM, heightM, mPerLon, mPerLat);
    var s := Start(m.data, b, index);
    var e := FwdSteps(m.data, b, s, 1);
    ForwardStops(m.data, b, s);
    var r := CropIndices(m, index, widthM, heightM, mPerLon, mPerLat, norm);
    forall j | 1 <= j <= e
      ensures r[j] == s + j && r[j] % n == Fwd(s, j, n)
    {
    }
  }

  /** The positions only grow, so no point is pushed twice within one turn;
      the samples all lie after the forward run and before `start + n`, one
      full turn from the start. */
  lemma {:induction false} CropIncreasing(m: Map, index: nat, widthM: real, heightM: real, mPerLon: real, mPerLat: real, norm: XY -> real)
    requires index < |m.data| && mPerLon != 0.0 && mPerLat != 0.0
    ensures var b := CropWindow(m, index, widthM, heightM, mPerLon, mPerLat);
            var s := Start(m.data, b, index);
            var e := FwdSteps(m.data, b, s, 1);
            var r := CropIndices(m, index, widthM, heightM, mPerLon, mPerLat, norm);
            && Increasing(r)
            && (forall i :: e < i < |r| ==> s + e < r[i] < s + |m.data|)
  {
    IndicesInIncreasing(m.data, CropWindow(m, index, widthM, heightM, mPerLon, mPerLat),
                        Projection(m.data[index], mPerLon, mPerLat), index, Max(widthM, heightM), norm);
  }

  /** The same for any window. */
  lemma IndicesInIncreasing(data: seq<LonLat>, b: Bounds, proj: Projection, index: nat, maxDim: real, norm: XY -> real)
    requires index < |data|
    ensures var s := Start(data, b, index);
            var e := FwdSteps(data, b, s, 1);
            var r := IndicesIn(data, b, proj, index, maxDim, norm);
            && Increasing(r)
            && (forall i :: e < i < |r| ==> s + e < r[i] < s + |data|)
  {
    var s := Start(data, b, index);
    var e := FwdSteps(data, b, s, 1);
    var head := [s] + Range(s + 1, s + e + 1);
    var tail := Decimate(data, proj, norm, maxDim, s + e + 1, s + |data|);
    assert IndicesIn(data, b, proj, index, maxDim, norm) == head + tail;
    assert forall i :: 0 <= i < |head| ==> head[i] == s + i;
    DecimateIncreasing(data, proj, norm, maxDim, s + e + 1, s + |data|);
    IncreasingConcat(head, tail);
    AppendAt(head, tail);
  }

  predicate Increasing(r: seq<nat>) {
    forall i, j :: 0 <= i < j < |r| ==> r[i] < r[j]
  }

  lemma IncreasingConcat(a: seq<nat>, c: seq<nat>)
    requires Increasing(a) && Increasing(c)
    requires a != [] ==> forall i :: 0 <= i < |c| ==> a[|a| - 1] < c[i]
    ensures Increasing(a + c)
  {
    forall i, j | 0 <= i < j < |a + c|
      ensures (a + c)[i] < (a + c)[j]
    {
      if j >= |a| && i < |a| {
        assert a[i] <= a[|a| - 1];
      }
    }
  }

  lemma AppendAt(a: seq<nat>, c: seq<nat>)
    ensures forall i :: |a| <= i < |a + c| ==> (a + c)[i] == c[i - |a|]
  {
  }
}
