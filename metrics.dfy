/**
 * The Track properties of benthic_activity_detection_v4.py (length,
 * displacement, avg_speed, total_duration, coupling_rate), the rest-period
 * count of its results, and validate_track.
 *
 * Displacement sums Euclidean step lengths. The square root of a real is
 * given by the ghost function Norm, so displacement, average speed and the
 * validator are ghost.
 */
module TrackMetrics {

  import opened Blobs
  import opened Tracks

  datatype ValidationParams = ValidationParams(minTrackLength: int, minDisplacement: real, maxSpeed: real, minSpeed: real)

  /** The dataclass defaults of ValidationParams in the v4 script. */
  const DefaultValidationParams := ValidationParams(4, 8.0, 30.0, 0.1)

  /** The defaults of ValidationParams in the v5 script. */
  const DefaultValidationParamsV5 := ValidationParams(5, 10.0, 30.0, 0.1)

  predicate IsRoot(s: real, x: real)
  {
    s >= 0.0 && s * s == x
  }

  /** The non-negative square root (np.sqrt on a non-negative argument). */
  ghost function Norm(x: real): (r: real)
    ensures r >= 0.0
    ensures (exists s :: IsRoot(s, x)) ==> IsRoot(r, x)
  {
    if exists s :: IsRoot(s, x) then (var s :| IsRoot(s, x); s) else 0.0
  }

  lemma RootUnique(s: real, t: real, x: real)
    requires IsRoot(s, x) && IsRoot(t, x)
    ensures s == t
  {
    var d := s - t;
    var e := s + t;
    assert d * e == s * s - t * t == 0.0;
    if e == 0.0 {
      assert s == 0.0 && t == 0.0;
    } else {
      assert d == (d * e) / e;
    }
  }

  lemma NormOfSquare(r: real)
    requires r >= 0.0
    ensures Norm(r * r) == r
  {
    assert IsRoot(r, r * r);
    RootUnique(Norm(r * r), r, r * r);
  }

  /** Track.length. */
  function Length(v: TrackView): nat
  {
    |v.frames|
  }

  /** Sum of the Euclidean distances between consecutive centroids. */
  ghost function PathLength(cs: seq<Point>): (r: real)
    ensures r >= 0.0
  {
    if |cs| < 2 then 0.0
    else PathLength(cs[..|cs| - 1]) + Norm(SqDist(cs[|cs| - 1], cs[|cs| - 2]))
  }

  /** Track.displacement. */
  ghost function Displacement(v: TrackView): real
  {
    PathLength(v.centroids)
  }

  /** The accumulator loop of Track.displacement. */
  ghost method ComputeDisplacement(v: TrackView) returns (total: real)
    ensures total == Displacement(v)
    ensures total >= 0.0
  {
    var cs := v.centroids;
    if |cs| < 2 {
      return 0.0;
    }
    total := 0.0;
    for i := 1 to |cs|
      invariant total == PathLength(cs[..i])
    {
      assert cs[..i + 1][..i] == cs[..i];
      total := total + Norm(SqDist(cs[i], cs[i - 1]));
    }
    assert cs[..|cs|] == cs;
  }

  /** Track.avg_speed: displacement per step, 0 with fewer than two centroids. */
  ghost function AvgSpeed(v: TrackView): real
  {
    if |v.centroids| < 2 then 0.0 else Displacement(v) / (|v.centroids| - 1) as real
  }

  /** Track.total_duration: frames from first to last detection, inclusive; 0 without frames. */
  function TotalDuration(v: TrackView): int
  {
    if |v.frames| == 0 then 0 else Last(v.frames) - v.frames[0] + 1
  }

  /** Track.coupling_rate as a percentage; 0 without detections. */
  function CouplingRate(v: TrackView): real
  {
    if v.totalDetections == 0 then 0.0
    else (v.coupledDetections as real / v.totalDetections as real) * 100.0
  }

  /** The number of gaps of more than one frame between consecutive detections. */
  function RestPeriods(frames: seq<int>): (r: nat)
    ensures r <= if |frames| == 0 then 0 else |frames| - 1
  {
    if |frames| < 2 then 0
    else RestPeriods(frames[..|frames| - 1]) + (if frames[|frames| - 1] - frames[|frames| - 2] > 1 then 1 else 0)
  }

  /** validate_track: the length floor, the displacement floor, then the speed band. */
  ghost predicate ValidateTrack(v: TrackView, vp: ValidationParams)
  {
    && Length(v) >= vp.minTrackLength
    && Displacement(v) >= vp.minDisplacement
    && AvgSpeed(v) >= vp.minSpeed
    && AvgSpeed(v) <= vp.maxSpeed
  }

  /** Displacement and average speed are never negative. */
  lemma MetricsNonNegative(v: TrackView)
    ensures Displacement(v) >= 0.0 && AvgSpeed(v) >= 0.0
  {
  }

  /**
   * With fewer than two centroids there is no displacement and no speed, so a
   * single-detection track is valid exactly when the length floor is at most
   * 1, the displacement floor at most 0 and 0 lies in the speed band.
   */
  lemma SingleDetection(v: TrackView, vp: ValidationParams)
    requires |v.frames| == 1 && |v.centroids| == 1
    ensures Displacement(v) == 0.0 && AvgSpeed(v) == 0.0
    ensures ValidateTrack(v, vp) <==>
      vp.minTrackLength <= 1 && vp.minDisplacement <= 0.0 && vp.minSpeed <= 0.0 <= vp.maxSpeed
  {
  }

  /** Under either script's defaults, a single-detection track is invalid. */
  lemma SingleDetectionInvalidByDefault(v: TrackView)
    requires |v.frames| == 1 && |v.centroids| == 1
    ensures !ValidateTrack(v, DefaultValidationParams)
    ensures !ValidateTrack(v, DefaultValidationParamsV5)
  {
    SingleDetection(v, DefaultValidationParams);
  }

  /**
   * Over strictly increasing frames, the span exceeds the detection count by
   * at least the number of rest periods, and the span equals the count exactly
   * when there is no rest period.
   */
  lemma {:induction false} DurationAndRests(frames: seq<int>)
    requires |frames| >= 1 && StrictlyIncreasing(frames)
    ensures Last(frames) - frames[0] + 1 - |frames| >= RestPeriods(frames)
    ensures RestPeriods(frames) == 0 <==> Last(frames) - frames[0] + 1 == |frames|
  {
    if |frames| >= 2 {
      var prefix := frames[..|frames| - 1];
      assert StrictlyIncreasing(prefix);
      DurationAndRests(prefix);
      assert prefix[0] == frames[0] && Last(prefix) == frames[|frames| - 2];
      assert frames[|frames| - 2] < frames[|frames| - 1];
    }
  }

  /** The same about a valid track's own properties. */
  lemma TrackDurationAndRests(v: TrackView)
    requires ValidView(v)
    ensures TotalDuration(v) >= Length(v) + RestPeriods(v.frames)
    ensures RestPeriods(v.frames) == 0 <==> TotalDuration(v) == Length(v)
  {
    DurationAndRests(v.frames);
  }

  /** A track seen in k consecutive frames has length k, span k and no rest period. */
  lemma ConsecutiveFrames(v: TrackView)
    requires |v.frames| >= 1
    requires forall i :: 0 <= i < |v.frames| ==> v.frames[i] == v.frames[0] + i
    ensures Length(v) == |v.frames| && TotalDuration(v) == |v.frames| && RestPeriods(v.frames) == 0
  {
    assert StrictlyIncreasing(v.frames);
    DurationAndRests(v.frames);
  }

  /** With the counters a valid track keeps, the coupling rate is a percentage, 100 when every detection was coupled. */
  lemma CouplingRateBounds(v: TrackView)
    requires ValidView(v)
    ensures 0.0 <= CouplingRate(v) <= 100.0
    ensures v.coupledDetections == v.totalDetections ==> CouplingRate(v) == 100.0
    ensures v.coupledDetections == 0 ==> CouplingRate(v) == 0.0
  {
    var c := v.coupledDetections as real;
    var t := v.totalDetections as real;
    assert t > 0.0;
    assert c / t <= 1.0;
  }

  /**
   * A track seen at frame f that misses m frames, m within the skip budget,
   * and is matched again at frame f + m + 1 keeps its identity and gains
   * exactly one rest period when m >= 1 (none when m == 0).
   */
  lemma ResumeAfterMisses(v: TrackView, tp: TrackingParams, m: nat, b: Blob)
    requires ValidView(v) && v.framesSinceDetection == 0
    requires m <= tp.maxSkipFrames
    ensures forall j :: 0 <= j < m ==> Survives(MissedTimes(v, tp, j), tp)
    ensures var r := Recorded(MissedTimes(v, tp, m), b, v.lastSeenFrame + m + 1);
      && r.trackId == v.trackId
      && RestPeriods(r.frames) == RestPeriods(v.frames) + (if m >= 1 then 1 else 0)
  {
    SkipBudget(v, tp, m);
    MissedTimesTrack(v, tp, m);
    var w := MissedTimes(v, tp, m);
    var r := Recorded(w, b, v.lastSeenFrame + m + 1);
    assert r.frames[..|r.frames| - 1] == v.frames;
  }

  lemma {:induction false} MissedTimesTrack(v: TrackView, tp: TrackingParams, m: nat)
    ensures MissedTimes(v, tp, m).trackId == v.trackId
    ensures MissedTimes(v, tp, m).frames == v.frames
    ensures MissedTimes(v, tp, m).lastSeenFrame == v.lastSeenFrame
  {
    if m > 0 {
      MissedTimesTrack(v, tp, m - 1);
    }
  }

  /**
   * Two frames: a blob at (100, 100) starts a track at frame 0, the same blob
   * shifted to (105, 100) is recorded at frame 1. The track has length 2,
   * displacement 5 and average speed 5, and is valid with length floor 2,
   * displacement floor 3 and speed band [0.1, 30].
   */
  lemma TwoFrameTrackValid(b0: Blob, b1: Blob)
    requires b0.centroid == Point(100.0, 100.0) && b1.centroid == Point(105.0, 100.0)
    ensures var v := Recorded(NewTrackView(1, 0, b0), b1, 1);
      && Length(v) == 2 && Displacement(v) == 5.0 && AvgSpeed(v) == 5.0
      && ValidateTrack(v, ValidationParams(2, 3.0, 30.0, 0.1))
  {
    var v := Recorded(NewTrackView(1, 0, b0), b1, 1);
    assert v.centroids == [b0.centroid, b1.centroid];
    assert SqDist(b1.centroid, b0.centroid) == 5.0 * 5.0;
    NormOfSquare(5.0);
    assert v.centroids[..1] == [b0.centroid];
    assert PathLength(v.centroids) == PathLength([b0.centroid]) + Norm(SqDist(b1.centroid, b0.centroid));
    assert Displacement(v) == 5.0;
    assert AvgSpeed(v) == 5.0 / 1.0;
  }
}
