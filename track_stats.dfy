/**
 * The post-parse part of `parseGPX` (components/hiking/utils.ts): from the
 * points of the first track of an already parsed GPX document it derives a
 * speed per point, smooths those speeds with a clipped 5-point moving
 * average, and computes the duration, the start time, the file name and the
 * display name of the hike.
 *
 * Times are milliseconds since the epoch (what `Date.getTime()` returns);
 * speeds are metres per second. The haversine distance is not modelled: it
 * is a parameter `dist`, of which only non-negativity is ever required.
 */
module TrackStats {
  import opened Wrappers

  /** A track point as the GPX parser delivers it. */
  datatype TrackPoint = TrackPoint(lat: real, lon: real, time: int)

  /** `HikingPoint`: a track point with its speed in m/s. */
  datatype HikingPoint = HikingPoint(lat: real, lon: real, speed: real, time: int)

  /** `HikingStats`: what `parseGPX` returns for one GPX file. */
  datatype HikingStats = HikingStats(
    name: string,
    filename: string,
    distance: real,
    duration: int,
    startTime: int,
    points: seq<HikingPoint>)

  /**
   * The parsed GPX document as far as `parseGPX` reads it: the metadata name
   * (None when the file has none), the points of its first track and the
   * track's own total distance.
   */
  datatype GpxDocument = GpxDocument(metadataName: Option<string>, points: seq<TrackPoint>, distanceTotal: real)

  /** `calculateDistance(lat1, lon1, lat2, lon2)`, in metres. */
  type Distance = (real, real, real, real) -> real

  ghost predicate NonNegative(dist: Distance) {
    forall lat1, lon1, lat2, lon2 :: dist(lat1, lon1, lat2, lon2) >= 0.0
  }

  /** The name used when the document has no (or an empty) metadata name. */
  const DefaultName: string := "No.1"

  /* ---------------------------------------------------------------------- */
  /* Raw speeds                                                              */
  /* ---------------------------------------------------------------------- */

  /** Seconds elapsed between point i-1 and point i. */
  function ElapsedSeconds(pts: seq<TrackPoint>, i: nat): (r: real)
    requires 0 < i < |pts|
    ensures r > 0.0 <==> pts[i].time > pts[i - 1].time
  {
    (pts[i].time - pts[i - 1].time) as real / 1000.0
  }

  /** Distance from point i-1 to point i. */
  function HopDistance(pts: seq<TrackPoint>, dist: Distance, i: nat): real
    requires 0 < i < |pts|
  {
    dist(pts[i - 1].lat, pts[i - 1].lon, pts[i].lat, pts[i].lon)
  }

  /** The speed of point i before smoothing. */
  function RawSpeed(pts: seq<TrackPoint>, dist: Distance, i: nat): (r: real)
    requires i < |pts|
    ensures r != 0.0 ==> i > 0 && pts[i].time > pts[i - 1].time
  {
    if i == 0 then 0.0
    else
      var timeDiff := ElapsedSeconds(pts, i);
      if timeDiff > 0.0 then HopDistance(pts, dist, i) / timeDiff else 0.0
  }

  /** The `track.points.map(...)` step: one point per track point, in order. */
  function DerivePoints(pts: seq<TrackPoint>, dist: Distance): (r: seq<HikingPoint>)
    ensures |r| == |pts|
    ensures forall i :: 0 <= i < |pts| ==>
      r[i].lat == pts[i].lat && r[i].lon == pts[i].lon && r[i].time == pts[i].time
    ensures forall i :: 0 <= i < |pts| ==> r[i].speed == RawSpeed(pts, dist, i)
  {
    seq(|pts|, i requires 0 <= i < |pts| =>
      HikingPoint(pts[i].lat, pts[i].lon, RawSpeed(pts, dist, i), pts[i].time))
  }

  /** The first point has no predecessor, so its speed is 0. */
  lemma FirstRawSpeedIsZero(pts: seq<TrackPoint>, dist: Distance)
    requires |pts| > 0
    ensures DerivePoints(pts, dist)[0].speed == 0.0
  {
  }

  /**
   * A later point's speed, multiplied by the seconds elapsed since its
   * predecessor, gives back the distance between them when time moved
   * forward; otherwise the speed is 0.
   */
  lemma RawSpeedRecoversDistance(pts: seq<TrackPoint>, dist: Distance, i: nat)
    requires 0 < i < |pts|
    ensures pts[i].time > pts[i - 1].time ==>
      RawSpeed(pts, dist, i) * ElapsedSeconds(pts, i) == HopDistance(pts, dist, i)
    ensures pts[i].time <= pts[i - 1].time ==> RawSpeed(pts, dist, i) == 0.0
  {
    var timeDiff := ElapsedSeconds(pts, i);
    if pts[i].time > pts[i - 1].time {
      assert timeDiff > 0.0;
    } else {
      assert timeDiff <= 0.0;
    }
  }

  /** With a non-negative distance no raw speed is negative. */
  lemma RawSpeedNonNegative(pts: seq<TrackPoint>, dist: Distance, i: nat)
    requires NonNegative(dist)
    requires i < |pts|
    ensures RawSpeed(pts, dist, i) >= 0.0
  {
    if i > 0 {
      var d := HopDistance(pts, dist, i);
      assert d >= 0.0;
      var timeDiff := ElapsedSeconds(pts, i);
      if timeDiff > 0.0 {
        assert d / timeDiff >= 0.0;
      }
    }
  }

  /* ---------------------------------------------------------------------- */
  /* Moving average                                                          */
  /* ---------------------------------------------------------------------- */

  /** `window.reduce((sum, curr) => sum + curr.speed, 0)`: a left fold. */
  function SpeedSum(w: seq<HikingPoint>): real
  {
    if w == [] then 0.0 else SpeedSum(w[..|w| - 1]) + w[|w| - 1].speed
  }

  function MeanSpeed(w: seq<HikingPoint>): real
    requires |w| > 0
  {
    SpeedSum(w) / |w| as real
  }

  /** `Math.max(0, i - 2)` */
  function WindowStart(i: int): (r: int)
    ensures r >= 0 && r >= i - 2 && (r == 0 || r == i - 2)
  {
    if 0 < i - 2 then i - 2 else 0
  }

  /** `Math.min(points.length, i + 3)` */
  function WindowEnd(n: int, i: int): (r: int)
    ensures r <= n && r <= i + 3 && (r == n || r == i + 3)
  {
    if n < i + 3 then n else i + 3
  }

  /** The slice of points averaged for point i: between one and five points, i among them. */
  function Window(pts: seq<HikingPoint>, i: nat): (w: seq<HikingPoint>)
    requires i < |pts|
    ensures 1 <= |w| <= 5
    ensures WindowStart(i) <= i < WindowEnd(|pts|, i)
    ensures w == pts[WindowStart(i)..WindowEnd(|pts|, i)]
  {
    pts[WindowStart(i)..WindowEnd(|pts|, i)]
  }

  /** The smoothing step: every point keeps its fields except speed, which becomes its window's mean. */
  function Smooth(pts: seq<HikingPoint>): (r: seq<HikingPoint>)
    ensures |r| == |pts|
    ensures forall i :: 0 <= i < |pts| ==> r[i] == pts[i].(speed := r[i].speed)
  {
    seq(|pts|, i requires 0 <= i < |pts| => pts[i].(speed := MeanSpeed(Window(pts, i))))
  }

  /** The smallest speed of a non-empty list of points. */
  function MinSpeed(w: seq<HikingPoint>): (r: real)
    requires |w| > 0
    ensures forall k :: 0 <= k < |w| ==> r <= w[k].speed
    ensures exists k :: 0 <= k < |w| && w[k].speed == r
  {
    if |w| == 1 then w[0].speed
    else
      var m := MinSpeed(w[..|w| - 1]);
      if w[|w| - 1].speed < m then w[|w| - 1].speed else m
  }

  /** The largest speed of a non-empty list of points. */
  function MaxSpeed(w: seq<HikingPoint>): (r: real)
    requires |w| > 0
    ensures forall k :: 0 <= k < |w| ==> w[k].speed <= r
    ensures exists k :: 0 <= k < |w| && w[k].speed == r
  {
    if |w| == 1 then w[0].speed
    else
      var m := MaxSpeed(w[..|w| - 1]);
      if w[|w| - 1].speed > m then w[|w| - 1].speed else m
  }

  /** A sum of speeds that are all at least lo (at most hi) is at least |w|·lo (at most |w|·hi). */
  lemma {:induction false} SpeedSumBounds(w: seq<HikingPoint>, lo: real, hi: real)
    requires forall k :: 0 <= k < |w| ==> lo <= w[k].speed <= hi
    ensures |w| as real * lo <= SpeedSum(w) <= |w| as real * hi
  {
    if w != [] {
      var init := w[..|w| - 1];
      assert forall k :: 0 <= k < |init| ==> init[k] == w[k];
      SpeedSumBounds(init, lo, hi);
      assert |w| as real * lo == |init| as real * lo + lo;
      assert |w| as real * hi == |init| as real * hi + hi;
    }
  }

  /** Dividing by a positive count keeps the bounds n·lo <= s <= n·hi as lo <= s/n <= hi. */
  lemma DivideBounds(s: real, n: real, lo: real, hi: real)
    requires n > 0.0 && n * lo <= s <= n * hi
    ensures lo <= s / n <= hi
  {
  }

  /** The mean of speeds that all lie in [lo, hi] lies in [lo, hi]. */
  lemma MeanBounded(w: seq<HikingPoint>, lo: real, hi: real)
    requires |w| > 0
    requires forall k :: 0 <= k < |w| ==> lo <= w[k].speed <= hi
    ensures lo <= MeanSpeed(w) <= hi
  {
    SpeedSumBounds(w, lo, hi);
    DivideBounds(SpeedSum(w), |w| as real, lo, hi);
  }

  /** A mean lies between the minimum and the maximum it averages. */
  lemma MeanWithinRange(w: seq<HikingPoint>)
    requires |w| > 0
    ensures MinSpeed(w) <= MeanSpeed(w) <= MaxSpeed(w)
  {
    MeanBounded(w, MinSpeed(w), MaxSpeed(w));
  }

  /**
   * Each smoothed speed is the mean of the raw speeds at indices
   * max(0, i-2) .. min(n, i+3) - 1, and lies between the least and the
   * greatest of them.
   */
  lemma SmoothedSpeedWithinWindow(pts: seq<HikingPoint>, i: nat)
    requires i < |pts|
    ensures var w := pts[WindowStart(i)..WindowEnd(|pts|, i)];
      1 <= |w| <= 5 &&
      Smooth(pts)[i].speed == MeanSpeed(w) &&
      MinSpeed(w) <= Smooth(pts)[i].speed <= MaxSpeed(w)
  {
    MeanWithinRange(Window(pts, i));
  }

  /** Smoothing keeps speeds non-negative. */
  lemma SmoothNonNegative(pts: seq<HikingPoint>)
    requires forall k :: 0 <= k < |pts| ==> pts[k].speed >= 0.0
    ensures forall i :: 0 <= i < |pts| ==> Smooth(pts)[i].speed >= 0.0
  {
    forall i | 0 <= i < |pts|
      ensures Smooth(pts)[i].speed >= 0.0
    {
      var w := Window(pts, i);
      assert forall k :: 0 <= k < |w| ==> w[k] == pts[WindowStart(i) + k];
      MeanBounded(w, 0.0, MaxSpeed(w));
    }
  }

  /** A track walked at one constant speed keeps that speed after smoothing. */
  lemma SmoothKeepsConstantSpeed(pts: seq<HikingPoint>, c: real)
    requires forall k :: 0 <= k < |pts| ==> pts[k].speed == c
    ensures forall i :: 0 <= i < |pts| ==> Smooth(pts)[i].speed == c
  {
    forall i | 0 <= i < |pts|
      ensures Smooth(pts)[i].speed == c
    {
      var w := Window(pts, i);
      assert forall k :: 0 <= k < |w| ==> w[k] == pts[WindowStart(i) + k];
      MeanBounded(w, c, c);
    }
  }

  /* ---------------------------------------------------------------------- */
  /* File name and display name                                             */
  /* ---------------------------------------------------------------------- */

  /**
   * `url.split('/').pop() || ''`: the text after the last '/', or the whole
   * URL when it has no '/'. It is a suffix of the URL, holds no '/', and is
   * either the whole URL or preceded by a '/'.
   */
  function LastSegment(url: string): (r: string)
    ensures |r| <= |url| && r == url[|url| - |r|..]
    ensures '/' !in r
    ensures |r| == |url| || url[|url| - |r| - 1] == '/'
  {
    if url == [] then []
    else if url[|url| - 1] == '/' then []
    else LastSegment(url[..|url| - 1]) + [url[|url| - 1]]
  }

  /** A file name without '/' appended to a directory path is what `LastSegment` gives back. */
  lemma {:induction false} LastSegmentOfPath(dir: string, name: string)
    requires '/' !in name
    ensures LastSegment(dir + "/" + name) == name
  {
    if name != [] {
      var init := name[..|name| - 1];
      assert (dir + "/" + name)[..|dir + "/" + name| - 1] == dir + "/" + init;
      LastSegmentOfPath(dir, init);
      assert init + [name[|name| - 1]] == name;
    } else {
      assert (dir + "/" + name)[|dir + "/" + name| - 1] == '/';
    }
  }

  /** `gpx.metadata.name || "No.1"` */
  function HikeName(metadataName: Option<string>): (r: string)
    ensures r != []
    ensures metadataName.Some? && metadataName.value != [] ==> r == metadataName.value
    ensures (metadataName.None? || metadataName.value == []) ==> r == DefaultName
  {
    if metadataName.Some? && metadataName.value != [] then metadataName.value else DefaultName
  }

  /* ---------------------------------------------------------------------- */
  /* parseGPX                                                               */
  /* ---------------------------------------------------------------------- */

  /** Milliseconds from the first to the last point; 0 for an empty track. */
  function Duration(pts: seq<TrackPoint>): (r: int)
    ensures |pts| <= 1 ==> r == 0
    ensures TimesNonDecreasing(pts) ==> r >= 0
  {
    if |pts| > 0 then pts[|pts| - 1].time - pts[0].time else 0
  }

  /** The first point's time; `now` (the `new Date()` of the source) for an empty track. */
  function StartTime(pts: seq<TrackPoint>, now: int): (r: int)
    ensures |pts| > 0 ==> r + Duration(pts) == pts[|pts| - 1].time
    ensures |pts| == 0 ==> r == now
  {
    if |pts| > 0 then pts[0].time else now
  }

  /**
   * `parseGPX(url)` once the file has been fetched and parsed into `doc`.
   * The point list has one entry per track point, in order, with position and
   * time copied, and the file name holds no '/'.
   */
  function ParseGpx(url: string, doc: GpxDocument, dist: Distance, now: int): (r: HikingStats)
    ensures |r.points| == |doc.points|
    ensures forall i :: 0 <= i < |doc.points| ==>
      r.points[i].lat == doc.points[i].lat &&
      r.points[i].lon == doc.points[i].lon &&
      r.points[i].time == doc.points[i].time
    ensures '/' !in r.filename && r.name != []
    ensures r.distance == doc.distanceTotal
  {
    var derived := DerivePoints(doc.points, dist);
    var smoothed := Smooth(derived);
    assert forall i :: 0 <= i < |derived| ==> smoothed[i] == derived[i].(speed := smoothed[i].speed);
    HikingStats(
      HikeName(doc.metadataName),
      LastSegment(url),
      doc.distanceTotal,
      Duration(doc.points),
      StartTime(doc.points, now),
      smoothed)
  }

  /** Times never go backwards along the track. */
  ghost predicate TimesNonDecreasing(pts: seq<TrackPoint>) {
    forall i, j :: 0 <= i <= j < |pts| ==> pts[i].time <= pts[j].time
  }

  /**
   * With at least one point, duration is last time minus first time and the
   * start is the first time; it is never negative when times never go
   * backwards. With no points the duration is 0 and the start is `now`.
   */
  lemma DurationAndStart(url: string, doc: GpxDocument, dist: Distance, now: int)
    ensures var r := ParseGpx(url, doc, dist, now);
      if |doc.points| > 0 then
        r.duration == doc.points[|doc.points| - 1].time - doc.points[0].time &&
        r.startTime == doc.points[0].time &&
        r.startTime + r.duration == r.points[|r.points| - 1].time
      else
        r.duration == 0 && r.startTime == now
    ensures TimesNonDecreasing(doc.points) ==> ParseGpx(url, doc, dist, now).duration >= 0
  {
  }

  /** Every speed `parseGPX` reports is non-negative when distances are. */
  lemma ParsedSpeedsNonNegative(url: string, doc: GpxDocument, dist: Distance, now: int)
    requires NonNegative(dist)
    ensures forall i :: 0 <= i < |doc.points| ==> ParseGpx(url, doc, dist, now).points[i].speed >= 0.0
  {
    var raw := DerivePoints(doc.points, dist);
    forall k | 0 <= k < |raw|
      ensures raw[k].speed >= 0.0
    {
      RawSpeedNonNegative(doc.points, dist, k);
    }
    SmoothNonNegative(raw);
  }

  /** A one-point track has duration 0 and smoothed speed 0. */
  lemma SinglePointTrack(url: string, doc: GpxDocument, dist: Distance, now: int)
    requires |doc.points| == 1
    ensures ParseGpx(url, doc, dist, now).duration == 0
    ensures ParseGpx(url, doc, dist, now).points[0].speed == 0.0
  {
    var raw := DerivePoints(doc.points, dist);
    assert raw[0].speed == 0.0;
    var w := Window(raw, 0);
    assert w == [raw[0]];
    assert w[..0] == [];
    assert SpeedSum(w) == 0.0;
    assert Smooth(raw)[0].speed == MeanSpeed(w);
  }

  /**
   * Points 0 s, 10 s and 20 s apart with two 10 m hops between them give raw
   * speeds 0, 1 and 1 m/s; each smoothed speed is their mean, 2/3 m/s.
   */
  lemma ThreePointScenario(dist: Distance, a: TrackPoint, b: TrackPoint, c: TrackPoint)
    requires a.time == 0 && b.time == 10000 && c.time == 20000
    requires dist(a.lat, a.lon, b.lat, b.lon) == 10.0
    requires dist(b.lat, b.lon, c.lat, c.lon) == 10.0
    ensures var raw := DerivePoints([a, b, c], dist);
      raw[0].speed == 0.0 && raw[1].speed == 1.0 && raw[2].speed == 1.0
    ensures forall i :: 0 <= i < 3 ==> Smooth(DerivePoints([a, b, c], dist))[i].speed == 2.0 / 3.0
  {
    var pts := [a, b, c];
    var raw := DerivePoints(pts, dist);
    assert ElapsedSeconds(pts, 1) == 10.0;
    assert ElapsedSeconds(pts, 2) == 10.0;
    assert raw[1].speed == 1.0;
    assert raw[2].speed == 1.0;
    forall i | 0 <= i < 3
      ensures Smooth(raw)[i].speed == 2.0 / 3.0
    {
      var w := Window(raw, i);
      assert w == raw;
      assert SpeedSum(raw[..0]) == 0.0;
      assert SpeedSum(raw[..1]) == 0.0;
      assert SpeedSum(raw[..2]) == 1.0;
      assert raw[..3] == raw;
    }
  }
}
