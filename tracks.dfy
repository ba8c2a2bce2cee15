/**
 * The track state of benthic_activity_detection_v4.py (the v5 copy is the
 * same) as values: a TrackView is the content of one Track object, and the
 * functions below say what one frame of association does to a list of them.
 * The objects that the source mutates are in module TrackManager; their
 * methods are proved against these functions.
 */
module Tracks {

  import opened Wrappers
  import opened GreedyMatch
  import opened Blobs
  import opened Sampling

  datatype TrackingParams = TrackingParams(maxDistance: real, maxSkipFrames: int, restZoneRadius: real)

  /** The dataclass defaults of TrackingParams in the v4 script. */
  const DefaultTrackingParams := TrackingParams(75.0, 90, 120.0)

  /** The defaults of TrackingParams in the v5 script. */
  const DefaultTrackingParamsV5 := TrackingParams(50.0, 60, 100.0)

  /** The fields of a Track, isValid apart. */
  datatype TrackView = TrackView(
    trackId: int,
    frames: seq<int>,
    bboxes: seq<BBox>,
    centroids: seq<Point>,
    areas: seq<int>,
    confidences: seq<real>,
    lastSeenFrame: int,
    lastKnownPosition: Option<Point>,
    isResting: bool,
    restRoi: Option<BBox>,
    framesSinceDetection: int,
    positionHistory: seq<Point>,
    coupledDetections: int,
    totalDetections: int)

  function Last<T>(s: seq<T>): T
    requires |s| > 0
  {
    s[|s| - 1]
  }

  predicate StrictlyIncreasing(s: seq<int>)
  {
    forall i, j :: 0 <= i < j < |s| ==> s[i] < s[j]
  }

  /**
   * What every track the tracker produces satisfies: parallel lists of one
   * length, at least one detection, strictly increasing frames ending at
   * last_seen_frame, a known position equal to the last centroid (absent only
   * before the first match), resting exactly when a rest ROI is set and only
   * after a miss, and detection counters that agree with the lists.
   */
  predicate ValidView(v: TrackView)
  {
    && |v.frames| >= 1
    && |v.bboxes| == |v.frames| && |v.centroids| == |v.frames|
    && |v.areas| == |v.frames| && |v.confidences| == |v.frames|
    && v.positionHistory == v.centroids
    && StrictlyIncreasing(v.frames)
    && v.lastSeenFrame == Last(v.frames)
    && (v.lastKnownPosition.Some? ==> v.lastKnownPosition.value == Last(v.centroids))
    && (v.lastKnownPosition.None? ==> |v.frames| == 1)
    && (v.isResting <==> v.restRoi.Some?)
    && (v.isResting ==> v.lastKnownPosition.Some? && v.framesSinceDetection > 0)
    && v.framesSinceDetection >= 0
    && v.totalDetections == |v.frames|
    && 0 <= v.coupledDetections <= v.totalDetections
  }

  /** The square ROI of side 2r around the last known position (x, y, w, h), each component truncated. */
  function RestRoi(pos: Point, radius: real): BBox
  {
    BBox(Trunc(pos.x - radius), Trunc(pos.y - radius), Trunc(2.0 * radius), Trunc(2.0 * radius))
  }

  /** A new track started by an unmatched blob: one entry per list and no known position yet. */
  function NewTrackView(id: int, frameIdx: int, b: Blob): TrackView
  {
    TrackView(id, [frameIdx], [b.bbox], [b.centroid], [b.area], [b.confidence], frameIdx,
              None, false, None, 0, [b.centroid], if b.kind == Coupled then 1 else 0, 1)
  }

  /** A track after its blob for this frame was recorded. */
  function Recorded(v: TrackView, b: Blob, frameIdx: int): TrackView
  {
    v.(frames := v.frames + [frameIdx],
       bboxes := v.bboxes + [b.bbox],
       centroids := v.centroids + [b.centroid],
       areas := v.areas + [b.area],
       confidences := v.confidences + [b.confidence],
       lastSeenFrame := frameIdx,
       lastKnownPosition := Some(b.centroid),
       framesSinceDetection := 0,
       isResting := false,
       restRoi := None,
       positionHistory := v.positionHistory + [b.centroid],
       totalDetections := v.totalDetections + 1,
       coupledDetections := v.coupledDetections + (if b.kind == Coupled then 1 else 0))
  }

  /** The track survives a miss when its incremented skip counter stays within the budget. */
  predicate Survives(v: TrackView, tp: TrackingParams)
  {
    v.framesSinceDetection + 1 <= tp.maxSkipFrames
  }

  /** A track after a frame without a blob for it: the counter grows, and a surviving track with a known position starts resting. */
  function Missed(v: TrackView, tp: TrackingParams): TrackView
  {
    var skipped := v.(framesSinceDetection := v.framesSinceDetection + 1);
    if Survives(v, tp) && !v.isResting && v.lastKnownPosition.Some? then
      skipped.(isResting := true, restRoi := Some(RestRoi(v.lastKnownPosition.value, tp.restZoneRadius)))
    else skipped
  }

  /** is_blob_in_rest_zone: the track rests, has a known position, and the blob is within the rest radius of it. */
  predicate InRestZone(b: Blob, v: TrackView, tp: TrackingParams)
  {
    v.isResting && v.lastKnownPosition.Some? &&
    WithinLimit(SqDist(b.centroid, v.lastKnownPosition.value), tp.restZoneRadius)
  }

  /** The squared association distance: to the last centroid, a quarter of it (distance halved) inside a rest zone. */
  function MatchKey(b: Blob, v: TrackView, tp: TrackingParams): (key: real)
    requires |v.centroids| > 0
    ensures key >= 0.0
    ensures key <= SqDist(b.centroid, Last(v.centroids))
  {
    var d2 := SqDist(b.centroid, Last(v.centroids));
    if v.isResting && InRestZone(b, v, tp) then d2 / 4.0 else d2
  }

  predicate HasCentroids(views: seq<TrackView>)
  {
    forall k :: 0 <= k < |views| ==> |views[k].centroids| > 0
  }

  /** The adjusted distance matrix, blobs by tracks. */
  function KeyMatrix(blobs: seq<Blob>, views: seq<TrackView>, tp: TrackingParams): (d: seq<seq<real>>)
    requires HasCentroids(views)
    ensures |d| == |blobs| && IsMatrix(d, |views|)
    ensures forall i, j :: 0 <= i < |blobs| && 0 <= j < |views| ==> d[i][j] == MatchKey(blobs[i], views[j], tp)
  {
    seq(|blobs|, i requires 0 <= i < |blobs| =>
      seq(|views|, j requires 0 <= j < |views| => MatchKey(blobs[i], views[j], tp)))
  }

  /** The accepted (blob index, track index) pairs of one frame, in acceptance order. */
  function MatchPairs(blobs: seq<Blob>, views: seq<TrackView>, tp: TrackingParams): seq<Cand>
    requires HasCentroids(views)
  {
    Greedy(SortByKey(Candidates(KeyMatrix(blobs, views, tp), tp.maxDistance)), {}, {})
  }

  /**
   * Association is a one-to-one matching of blobs to tracks within the
   * (adjusted) maximum distance, the adjustment applying exactly to resting
   * tracks whose rest zone holds the blob; it is maximal, since a blob and a
   * track within reach of each other are not both left unmatched; and each
   * blob is either matched or left over.
   */
  lemma MatchPairsSpec(blobs: seq<Blob>, views: seq<TrackView>, tp: TrackingParams)
    requires HasCentroids(views)
    ensures var pairs := MatchPairs(blobs, views, tp);
      && OneToOne(pairs)
      && (forall c :: c in pairs ==>
            && c.a < |blobs| && c.b < |views|
            && WithinLimit(c.key, tp.maxDistance)
            && c.key == MatchKey(blobs[c.a], views[c.b], tp)
            && (c.key < SqDist(blobs[c.a].centroid, Last(views[c.b].centroids)) ==> InRestZone(blobs[c.a], views[c.b], tp)))
      && (forall i, j :: 0 <= i < |blobs| && 0 <= j < |views| && WithinLimit(MatchKey(blobs[i], views[j], tp), tp.maxDistance) ==>
            i in Rows(pairs) || j in Cols(pairs))
      && |pairs| + |Unclaimed(blobs, Rows(pairs))| == |blobs|
  {
    var d := KeyMatrix(blobs, views, tp);
    var cands := Candidates(d, tp.maxDistance);
    var sorted := SortByKey(cands);
    var pairs := MatchPairs(blobs, views, tp);
    SortByKeySortedPerm(cands);
    GreedyMatching(sorted, {}, {});
    forall c | c in pairs
      ensures && c.a < |blobs| && c.b < |views|
              && WithinLimit(c.key, tp.maxDistance)
              && c.key == MatchKey(blobs[c.a], views[c.b], tp)
    {
      assert c in multiset(sorted);
      CandidatesIff(d, |views|, tp.maxDistance, c);
    }
    forall i, j | 0 <= i < |blobs| && 0 <= j < |views| && WithinLimit(MatchKey(blobs[i], views[j], tp), tp.maxDistance)
      ensures i in Rows(pairs) || j in Cols(pairs)
    {
      var c := Cand(i, j, d[i][j]);
      CandidatesIff(d, |views|, tp.maxDistance, c);
      assert c in multiset(cands);
    }
    OneToOneCard(pairs);
    UnclaimedCount(blobs, Rows(pairs));
  }

  /** A track's next state: its blob recorded when matched, a miss otherwise. */
  function StepView(views: seq<TrackView>, blobs: seq<Blob>, pairs: seq<Cand>, i: nat, frameIdx: int, tp: TrackingParams): TrackView
    requires i < |views|
  {
    match PartnerOf(pairs, i)
    case Some(bi) => if bi < |blobs| then Recorded(views[i], blobs[bi], frameIdx) else views[i]
    case None => Missed(views[i], tp)
  }

  /** Indices below n of the unmatched tracks (those not in matched) that survive their miss, ascending. */
  function UnmatchedSurvivors(views: seq<TrackView>, matched: set<nat>, tp: TrackingParams, n: nat): (r: seq<nat>)
    requires n <= |views|
    ensures forall k :: 0 <= k < |r| ==> r[k] < n
  {
    if n == 0 then []
    else
      var prev := UnmatchedSurvivors(views, matched, tp, n - 1);
      prev + (if n - 1 !in matched && Survives(views[n - 1], tp) then [n - 1] else [])
  }

  /** The survivors are exactly the unmatched tracks within the skip budget, in increasing order. */
  lemma UnmatchedSurvivorsSpec(views: seq<TrackView>, matched: set<nat>, tp: TrackingParams, n: nat)
    requires n <= |views|
    ensures forall k :: 0 <= k < |UnmatchedSurvivors(views, matched, tp, n)| ==>
      UnmatchedSurvivors(views, matched, tp, n)[k] !in matched &&
      Survives(views[UnmatchedSurvivors(views, matched, tp, n)[k]], tp)
    ensures forall i :: 0 <= i < n && i !in matched && Survives(views[i], tp) ==> i in UnmatchedSurvivors(views, matched, tp, n)
    ensures forall p, q :: 0 <= p < q < |UnmatchedSurvivors(views, matched, tp, n)| ==>
      UnmatchedSurvivors(views, matched, tp, n)[p] < UnmatchedSurvivors(views, matched, tp, n)[q]
  {
    UnmatchedSurvivorsSound(views, matched, tp, n);
    UnmatchedSurvivorsComplete(views, matched, tp, n);
    UnmatchedSurvivorsAscending(views, matched, tp, n);
  }

  /** Every survivor is an unmatched track within the skip budget. */
  lemma {:induction false} UnmatchedSurvivorsSound(views: seq<TrackView>, matched: set<nat>, tp: TrackingParams, n: nat)
    requires n <= |views|
    ensures forall k :: 0 <= k < |UnmatchedSurvivors(views, matched, tp, n)| ==>
      UnmatchedSurvivors(views, matched, tp, n)[k] !in matched &&
      Survives(views[UnmatchedSurvivors(views, matched, tp, n)[k]], tp)
  {
    if n > 0 {
      var prev := UnmatchedSurvivors(views, matched, tp, n - 1);
      var r := UnmatchedSurvivors(views, matched, tp, n);
      UnmatchedSurvivorsSound(views, matched, tp, n - 1);
      forall k | 0 <= k < |r| ensures r[k] !in matched && Survives(views[r[k]], tp) {
        if k < |prev| { assert r[k] == prev[k]; } else { assert r[k] == n - 1; }
      }
    }
  }

  /** Every unmatched track within the skip budget is a survivor. */
  lemma {:induction false} UnmatchedSurvivorsComplete(views: seq<TrackView>, matched: set<nat>, tp: TrackingParams, n: nat)
    requires n <= |views|
    ensures forall i :: 0 <= i < n && i !in matched && Survives(views[i], tp) ==> i in UnmatchedSurvivors(views, matched, tp, n)
  {
    if n > 0 {
      var prev := UnmatchedSurvivors(views, matched, tp, n - 1);
      var r := UnmatchedSurvivors(views, matched, tp, n);
      UnmatchedSurvivorsComplete(views, matched, tp, n - 1);
      forall i | 0 <= i < n && i !in matched && Survives(views[i], tp) ensures i in r {
        if i < n - 1 { assert i in prev; } else { assert r[|r| - 1] == i; }
      }
    }
  }

  /** The survivors come in increasing index order. */
  lemma {:induction false} UnmatchedSurvivorsAscending(views: seq<TrackView>, matched: set<nat>, tp: TrackingParams, n: nat)
    requires n <= |views|
    ensures forall p, q :: 0 <= p < q < |UnmatchedSurvivors(views, matched, tp, n)| ==>
      UnmatchedSurvivors(views, matched, tp, n)[p] < UnmatchedSurvivors(views, matched, tp, n)[q]
  {
    if n > 0 {
      var prev := UnmatchedSurvivors(views, matched, tp, n - 1);
      var r := UnmatchedSurvivors(views, matched, tp, n);
      UnmatchedSurvivorsAscending(views, matched, tp, n - 1);
      forall p, q | 0 <= p < q < |r| ensures r[p] < r[q] {
        if q < |prev| { assert r[p] == prev[p] && r[q] == prev[q]; } else { assert r[p] == prev[p] && r[q] == n - 1; }
      }
    }
  }

  /** Indices below n of the matched tracks, ascending. */
  function MatchedIndices(matched: set<nat>, n: nat): (r: seq<nat>)
    ensures forall k :: 0 <= k < |r| ==> r[k] < n
  {
    if n == 0 then []
    else
      var prev := MatchedIndices(matched, n - 1);
      prev + (if n - 1 in matched then [n - 1] else [])
  }

  /** The matched indices are exactly the members of matched below n, in increasing order. */
  lemma {:induction false} MatchedIndicesSpec(matched: set<nat>, n: nat)
    ensures forall k :: 0 <= k < |MatchedIndices(matched, n)| ==> MatchedIndices(matched, n)[k] in matched
    ensures forall i :: 0 <= i < n && i in matched ==> i in MatchedIndices(matched, n)
    ensures forall p, q :: 0 <= p < q < |MatchedIndices(matched, n)| ==>
      MatchedIndices(matched, n)[p] < MatchedIndices(matched, n)[q]
  {
    if n > 0 {
      var prev := MatchedIndices(matched, n - 1);
      var step := if n - 1 in matched then [n - 1] else [];
      var r := prev + step;
      MatchedIndicesSpec(matched, n - 1);
      forall k | 0 <= k < |r| ensures r[k] in matched {
        if k < |prev| { assert r[k] == prev[k]; } else { assert step == [n - 1] && r[k] == n - 1; }
      }
      forall i | 0 <= i < n && i in matched ensures i in r {
        if i < n - 1 { assert i in prev; } else { assert r[|r| - 1] == i; }
      }
      forall p, q | 0 <= p < q < |r| ensures r[p] < r[q] {
        if q < |prev| { assert r[p] == prev[p] && r[q] == prev[q]; } else { assert r[p] == prev[p] && r[q] == n - 1; }
      }
    }
  }

  /** The order of the returned tracks: surviving unmatched ones, then matched ones, each by index. */
  function KeptOrder(views: seq<TrackView>, pairs: seq<Cand>, tp: TrackingParams): (r: seq<nat>)
    ensures forall k :: 0 <= k < |r| ==> r[k] < |views|
  {
    UnmatchedSurvivors(views, Cols(pairs), tp, |views|) + MatchedIndices(Cols(pairs), |views|)
  }

  /**
   * A track is returned exactly when it was matched or survives its miss, and
   * no track is returned twice.
   */
  lemma KeptOrderSpec(views: seq<TrackView>, pairs: seq<Cand>, tp: TrackingParams)
    ensures var order := KeptOrder(views, pairs, tp);
      && (forall i: nat :: i in order <==> i < |views| && (i in Cols(pairs) || Survives(views[i], tp)))
      && (forall p, q :: 0 <= p < q < |order| ==> order[p] != order[q])
  {
    var u := UnmatchedSurvivors(views, Cols(pairs), tp, |views|);
    var m := MatchedIndices(Cols(pairs), |views|);
    UnmatchedSurvivorsSpec(views, Cols(pairs), tp, |views|);
    MatchedIndicesSpec(Cols(pairs), |views|);
    var order := u + m;
    forall p, q | 0 <= p < q < |order| ensures order[p] != order[q] {
      if q < |u| {
      } else if p >= |u| {
        assert order[p] == m[p - |u|] && order[q] == m[q - |u|];
      } else {
        assert order[p] == u[p] && order[q] == m[q - |u|];
        assert order[p] !in Cols(pairs) && order[q] in Cols(pairs);
      }
    }
  }

  /** The new tracks started by the unmatched blobs, numbered from nextId. */
  function NewViews(bs: seq<Blob>, frameIdx: int, nextId: int): (r: seq<TrackView>)
    ensures |r| == |bs|
  {
    seq(|bs|, k requires 0 <= k < |bs| => NewTrackView(nextId + k, frameIdx, bs[k]))
  }

  /** The blobs of a frame that no track takes. */
  function UnmatchedBlobs(blobs: seq<Blob>, views: seq<TrackView>, tp: TrackingParams): seq<Blob>
    requires HasCentroids(views)
  {
    Unclaimed(blobs, Rows(MatchPairs(blobs, views, tp)))
  }

  /** The tracks returned by match_blobs_to_tracks, in order. */
  function KeptViews(views: seq<TrackView>, blobs: seq<Blob>, frameIdx: int, tp: TrackingParams): (r: seq<TrackView>)
    requires HasCentroids(views)
  {
    var pairs := MatchPairs(blobs, views, tp);
    var order := KeptOrder(views, pairs, tp);
    seq(|order|, k requires 0 <= k < |order| => StepView(views, blobs, pairs, order[k], frameIdx, tp))
  }

  /** One frame of the tracking loop: association, then a new track per leftover blob. */
  function FrameStep(views: seq<TrackView>, blobs: seq<Blob>, frameIdx: int, nextId: int, tp: TrackingParams): seq<TrackView>
    requires HasCentroids(views)
  {
    KeptViews(views, blobs, frameIdx, tp) + NewViews(UnmatchedBlobs(blobs, views, tp), frameIdx, nextId)
  }

  // ---------------------------------------------------------------------
  // Invariants of the tracking loop
  // ---------------------------------------------------------------------

  /**
   * A live track after frame lastFrame: valid, last seen no later than that
   * frame with the skip counter counting the frames since, the counter within
   * the budget unless the track was just seen, and an id below nextId.
   */
  predicate TrackInv(v: TrackView, lastFrame: int, nextId: int, tp: TrackingParams)
  {
    && ValidView(v)
    && v.lastSeenFrame <= lastFrame
    && v.framesSinceDetection == lastFrame - v.lastSeenFrame
    && (v.framesSinceDetection == 0 || v.framesSinceDetection <= tp.maxSkipFrames)
    && 1 <= v.trackId < nextId
  }

  predicate DistinctIds(views: seq<TrackView>)
  {
    forall i, j :: 0 <= i < j < |views| ==> views[i].trackId != views[j].trackId
  }

  predicate StateInv(views: seq<TrackView>, lastFrame: int, nextId: int, tp: TrackingParams)
  {
    && nextId >= 1
    && (forall k :: 0 <= k < |views| ==> TrackInv(views[k], lastFrame, nextId, tp))
    && DistinctIds(views)
  }

  lemma StateInvHasCentroids(views: seq<TrackView>, lastFrame: int, nextId: int, tp: TrackingParams)
    requires StateInv(views, lastFrame, nextId, tp)
    ensures HasCentroids(views)
  {
    forall k | 0 <= k < |views| ensures |views[k].centroids| > 0 {
      assert TrackInv(views[k], lastFrame, nextId, tp);
    }
  }

  /** Recording a blob at a later frame keeps a track valid and grows each parallel list by one. */
  lemma RecordedValid(v: TrackView, b: Blob, frameIdx: int)
    requires ValidView(v) && v.lastSeenFrame < frameIdx
    ensures var r := Recorded(v, b, frameIdx);
      && ValidView(r) && |r.frames| == |v.frames| + 1
      && r.frames[..|v.frames|] == v.frames && r.centroids[..|v.centroids|] == v.centroids
  {
    var r := Recorded(v, b, frameIdx);
    forall i, j | 0 <= i < j < |r.frames| ensures r.frames[i] < r.frames[j] {
      if j == |v.frames| {
        assert r.frames[i] == v.frames[i];
        assert v.frames[i] <= Last(v.frames);
      }
    }
    if b.kind == Coupled { } else { }
  }

  /** A miss keeps a track valid and leaves its detections unchanged. */
  lemma MissedValid(v: TrackView, tp: TrackingParams)
    requires ValidView(v)
    ensures var r := Missed(v, tp);
      && ValidView(r)
      && r.frames == v.frames && r.centroids == v.centroids && r.lastSeenFrame == v.lastSeenFrame
      && r.framesSinceDetection == v.framesSinceDetection + 1
      && (r.isResting <==> v.isResting || (Survives(v, tp) && v.lastKnownPosition.Some?))
  {
  }

  /** A new track is valid, and without a known position it never starts resting, however many frames it misses. */
  lemma NewTrackCannotRest(id: int, frameIdx: int, b: Blob, tp: TrackingParams, misses: nat)
    ensures ValidView(NewTrackView(id, frameIdx, b))
    ensures var r := MissedTimes(NewTrackView(id, frameIdx, b), tp, misses);
      !r.isResting && r.restRoi.None? && r.framesSinceDetection == misses
  {
    var v := NewTrackView(id, frameIdx, b);
    MissedTimesKeepsPosition(v, tp, misses);
  }

  /** A track after the given number of consecutive misses. */
  function MissedTimes(v: TrackView, tp: TrackingParams, misses: nat): TrackView
  {
    if misses == 0 then v else Missed(MissedTimes(v, tp, misses - 1), tp)
  }

  lemma {:induction false} MissedTimesKeepsPosition(v: TrackView, tp: TrackingParams, misses: nat)
    requires v.lastKnownPosition.None? && !v.isResting && v.restRoi.None?
    ensures var r := MissedTimes(v, tp, misses);
      && r.lastKnownPosition.None? && !r.isResting && r.restRoi.None?
      && r.framesSinceDetection == v.framesSinceDetection + misses
  {
    if misses > 0 {
      MissedTimesKeepsPosition(v, tp, misses - 1);
    }
  }

  /**
   * The skip budget: starting from a fresh detection, a track survives each of
   * m >= 1 consecutive misses exactly when m <= max_skip_frames.
   */
  lemma {:induction false} SkipBudget(v: TrackView, tp: TrackingParams, m: nat)
    requires v.framesSinceDetection == 0
    ensures (forall j :: 0 <= j < m ==> Survives(MissedTimes(v, tp, j), tp)) <==> m == 0 || m <= tp.maxSkipFrames
    ensures MissedTimes(v, tp, m).framesSinceDetection == m
    ensures MissedTimes(v, tp, m).frames == v.frames
  {
    if m > 0 {
      SkipBudget(v, tp, m - 1);
      assert MissedTimes(v, tp, m - 1).framesSinceDetection == m - 1;
      if m <= tp.maxSkipFrames {
        forall j | 0 <= j < m ensures Survives(MissedTimes(v, tp, j), tp) {
          SkipBudget(v, tp, j);
        }
      } else {
        assert !Survives(MissedTimes(v, tp, m - 1), tp);
      }
    }
  }

  /** The kept part of a frame step keeps every track's invariant for the new frame. */
  lemma KeptViewsInv(views: seq<TrackView>, blobs: seq<Blob>, frameIdx: int, nextId: int, tp: TrackingParams)
    requires StateInv(views, frameIdx - 1, nextId, tp)
    ensures HasCentroids(views)
    ensures var r := KeptViews(views, blobs, frameIdx, tp);
      && (forall k :: 0 <= k < |r| ==> TrackInv(r[k], frameIdx, nextId, tp))
      && DistinctIds(r)
  {
    StateInvHasCentroids(views, frameIdx - 1, nextId, tp);
    var pairs := MatchPairs(blobs, views, tp);
    var order := KeptOrder(views, pairs, tp);
    var r := KeptViews(views, blobs, frameIdx, tp);
    MatchPairsSpec(blobs, views, tp);
    KeptOrderSpec(views, pairs, tp);
    forall k | 0 <= k < |r| ensures TrackInv(r[k], frameIdx, nextId, tp) && r[k].trackId == views[order[k]].trackId {
      var i := order[k];
      var v := views[i];
      assert TrackInv(v, frameIdx - 1, nextId, tp);
      assert order[k] in order;
      match PartnerOf(pairs, i)
      case Some(bi) =>
        var w :| 0 <= w < |pairs| && pairs[w].b == i && pairs[w].a == bi;
        assert pairs[w] in pairs;
        RecordedValid(v, blobs[bi], frameIdx);
      case None =>
        MissedValid(v, tp);
    }
  }

  /** The tracks started in a frame are valid and numbered consecutively from the next free identifier. */
  lemma NewViewsInv(bs: seq<Blob>, frameIdx: int, nextId: int, tp: TrackingParams)
    requires nextId >= 1
    ensures forall k :: 0 <= k < |bs| ==>
      TrackInv(NewViews(bs, frameIdx, nextId)[k], frameIdx, nextId + |bs|, tp)
      && NewViews(bs, frameIdx, nextId)[k].trackId == nextId + k
  {
  }

  /** Live tracks numbered below nextId, followed by tracks numbered consecutively from nextId, keep the invariant. */
  lemma AppendStateInv(kept: seq<TrackView>, started: seq<TrackView>, frameIdx: int, nextId: int, tp: TrackingParams)
    requires nextId >= 1
    requires forall k :: 0 <= k < |kept| ==> TrackInv(kept[k], frameIdx, nextId, tp)
    requires DistinctIds(kept)
    requires forall k :: 0 <= k < |started| ==>
      TrackInv(started[k], frameIdx, nextId + |started|, tp) && started[k].trackId == nextId + k
    ensures StateInv(kept + started, frameIdx, nextId + |started|, tp)
  {
    var next := nextId + |started|;
    var r := kept + started;
    forall k | 0 <= k < |r| ensures TrackInv(r[k], frameIdx, next, tp) {
      if k < |kept| {
        assert TrackInv(kept[k], frameIdx, nextId, tp);
      } else {
        assert r[k] == started[k - |kept|];
      }
    }
    forall i, j | 0 <= i < j < |r| ensures r[i].trackId != r[j].trackId {
      if j < |kept| {
        assert r[i] == kept[i] && r[j] == kept[j];
      } else if i >= |kept| {
        assert r[i] == started[i - |kept|] && r[j] == started[j - |kept|];
      } else {
        assert TrackInv(kept[i], frameIdx, nextId, tp);
        assert r[i] == kept[i] && r[j] == started[j - |kept|];
      }
    }
  }

  /** A frame step keeps the invariant of the tracking loop and numbers new tracks past every live one. */
  lemma FrameStepInv(views: seq<TrackView>, blobs: seq<Blob>, frameIdx: int, nextId: int, tp: TrackingParams)
    requires StateInv(views, frameIdx - 1, nextId, tp)
    ensures HasCentroids(views)
    ensures StateInv(FrameStep(views, blobs, frameIdx, nextId, tp), frameIdx,
                     nextId + |UnmatchedBlobs(blobs, views, tp)|, tp)
  {
    KeptViewsInv(views, blobs, frameIdx, nextId, tp);
    var unmatched := UnmatchedBlobs(blobs, views, tp);
    NewViewsInv(unmatched, frameIdx, nextId, tp);
    AppendStateInv(KeptViews(views, blobs, frameIdx, tp), NewViews(unmatched, frameIdx, nextId), frameIdx, nextId, tp);
  }

  /** No live tracks: no association, every blob starts a track. */
  lemma NoTracksAllNew(blobs: seq<Blob>, tp: TrackingParams)
    ensures MatchPairs(blobs, [], tp) == []
    ensures UnmatchedBlobs(blobs, [], tp) == blobs
    ensures KeptViews([], blobs, 0, tp) == []
  {
    var d := KeyMatrix(blobs, [], tp);
    var cands := Candidates(d, tp.maxDistance);
    if cands != [] {
      CandidatesIff(d, 0, tp.maxDistance, cands[0]);
      assert false;
    }
    SortByKeySortedPerm(cands);
    assert |SortByKey(cands)| == |multiset(SortByKey(cands))| == 0;
    assert Rows([]) == {};
    UnclaimedNone(blobs);
  }

  /** With no pair accepted, the returned tracks are the survivors in index order. */
  lemma {:induction false} KeptOrderNoPairs(views: seq<TrackView>, tp: TrackingParams, n: nat)
    requires n <= |views|
    ensures MatchedIndices({}, n) == []
    ensures n == |views| ==> KeptOrder(views, [], tp) == UnmatchedSurvivors(views, {}, tp, n)
  {
    if n > 0 {
      KeptOrderNoPairs(views, tp, n - 1);
    }
    assert Cols([]) == {};
  }

  /** No blobs: no association, every track takes a miss. */
  lemma NoBlobsAllMiss(views: seq<TrackView>, frameIdx: int, tp: TrackingParams)
    requires HasCentroids(views)
    ensures MatchPairs([], views, tp) == []
    ensures forall i :: 0 <= i < |views| ==> StepView(views, [], [], i, frameIdx, tp) == Missed(views[i], tp)
  {
    assert Candidates(KeyMatrix([], views, tp), tp.maxDistance) == [];
  }

  // ---------------------------------------------------------------------
  // The tracking loop over a whole clip
  // ---------------------------------------------------------------------

  datatype RunState = RunState(views: seq<TrackView>, nextId: int)

  /**
   * The live tracks and the next track id after the frames given, frame k
   * carrying frame index k; ids start at 1. Every state reached satisfies the
   * loop invariant.
   */
  function Run(frames: seq<seq<Blob>>, tp: TrackingParams): (r: RunState)
    ensures StateInv(r.views, |frames| - 1, r.nextId, tp)
  {
    if frames == [] then RunState([], 1)
    else
      var n := |frames| - 1;
      var s := Run(frames[..n], tp);
      FrameStepInv(s.views, frames[n], n, s.nextId, tp);
      RunState(FrameStep(s.views, frames[n], n, s.nextId, tp),
               s.nextId + |UnmatchedBlobs(frames[n], s.views, tp)|)
  }

  /** The active_count of a frame summary: tracks seen in the frame, or resting within the skip budget. */
  function CountActive(views: seq<TrackView>, frameIdx: int, tp: TrackingParams): nat
  {
    if views == [] then 0
    else
      var v := Last(views);
      CountActive(views[..|views| - 1], frameIdx, tp)
        + (if frameIdx in v.frames || (v.isResting && frameIdx - v.lastSeenFrame <= tp.maxSkipFrames) then 1 else 0)
  }

  /** Tracks whose last detection is in the given frame, or that rest. */
  function CountSeenOrResting(views: seq<TrackView>, frameIdx: int): nat
  {
    if views == [] then 0
    else
      var v := Last(views);
      CountSeenOrResting(views[..|views| - 1], frameIdx) + (if v.lastSeenFrame == frameIdx || v.isResting then 1 else 0)
  }

  /**
   * Right after a frame, a live track is counted active exactly when it was
   * matched or started in that frame, or rests: the skip-budget test of the
   * count never excludes a live resting track.
   */
  lemma {:induction false} ActiveCountMeaning(views: seq<TrackView>, frameIdx: int, nextId: int, tp: TrackingParams)
    requires StateInv(views, frameIdx, nextId, tp)
    ensures CountActive(views, frameIdx, tp) == CountSeenOrResting(views, frameIdx)
    ensures CountActive(views, frameIdx, tp) <= |views|
  {
    if views != [] {
      var n := |views| - 1;
      var prefix := views[..n];
      assert StateInv(prefix, frameIdx, nextId, tp) by {
        forall k | 0 <= k < |prefix| ensures TrackInv(prefix[k], frameIdx, nextId, tp) {
          assert prefix[k] == views[k];
        }
      }
      ActiveCountMeaning(prefix, frameIdx, nextId, tp);
      var v := views[n];
      assert TrackInv(v, frameIdx, nextId, tp);
      if frameIdx in v.frames {
        var i :| 0 <= i < |v.frames| && v.frames[i] == frameIdx;
        assert v.frames[i] <= v.frames[|v.frames| - 1] by {
          if i < |v.frames| - 1 {
            assert v.frames[i] < v.frames[|v.frames| - 1];
          }
        }
      }
    }
  }

  /** The number of coupled blobs of a frame. */
  function CountCoupled(blobs: seq<Blob>): (r: nat)
    ensures r <= |blobs|
  {
    if blobs == [] then 0
    else CountCoupled(blobs[..|blobs| - 1]) + (if Last(blobs).kind == Coupled then 1 else 0)
  }
}
