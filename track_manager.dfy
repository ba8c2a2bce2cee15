/**
 * The Track objects of benthic_activity_detection_v4.py and the association
 * step that updates them in place (match_blobs_to_tracks), with the creation
 * of new tracks for leftover blobs from the frame loop. Each method is proved
 * against the value-level functions of module Tracks.
 */
module TrackManager {

  import opened Wrappers
  import opened GreedyMatch
  import opened Blobs
  import opened Tracks
  import opened Sampling

  class Track {
    const trackId: int
    var frames: seq<int>
    var bboxes: seq<BBox>
    var centroids: seq<Point>
    var areas: seq<int>
    var confidences: seq<real>
    /** Set after the clip by validate_track, which needs square roots. */
    ghost var isValid: bool
    var lastSeenFrame: int
    var lastKnownPosition: Option<Point>
    var isResting: bool
    var restRoi: Option<BBox>
    var framesSinceDetection: int
    var positionHistory: seq<Point>
    var coupledDetections: int
    var totalDetections: int

    /** The track's fields as a value. */
    function View(): TrackView
      reads this
    {
      TrackView(trackId, frames, bboxes, centroids, areas, confidences, lastSeenFrame,
                lastKnownPosition, isResting, restRoi, framesSinceDetection,
                positionHistory, coupledDetections, totalDetections)
    }

    /** The Track(...) call for an unmatched blob, followed by add_position and the counters. */
    constructor FromBlob(id: int, frameIdx: int, b: Blob)
      ensures View() == NewTrackView(id, frameIdx, b)
      ensures !isValid
    {
      trackId := id;
      frames := [frameIdx];
      bboxes := [b.bbox];
      centroids := [b.centroid];
      areas := [b.area];
      confidences := [b.confidence];
      lastSeenFrame := frameIdx;
      lastKnownPosition := None;
      isResting := false;
      restRoi := None;
      framesSinceDetection := 0;
      positionHistory := [];
      coupledDetections := 0;
      totalDetections := 0;
      new;
      AddPosition(b.centroid.x, b.centroid.y);
      totalDetections := 1;
      if b.kind == Coupled {
        coupledDetections := 1;
      }
      isValid := false;
    }

    /** add_position. */
    method AddPosition(x: real, y: real)
      modifies this
      ensures View() == old(View()).(positionHistory := old(positionHistory) + [Point(x, y)])
    {
      positionHistory := positionHistory + [Point(x, y)];
    }

    /** The five per-detection lists of a matched track grow by the new detection. */
    method AppendDetection(frameIdx: int, b: Blob)
      modifies this
      ensures View() == old(View()).(frames := old(frames) + [frameIdx], bboxes := old(bboxes) + [b.bbox],
                                     centroids := old(centroids) + [b.centroid], areas := old(areas) + [b.area],
                                     confidences := old(confidences) + [b.confidence])
    {
      frames := frames + [frameIdx];
      bboxes := bboxes + [b.bbox];
      centroids := centroids + [b.centroid];
      areas := areas + [b.area];
      confidences := confidences + [b.confidence];
    }

    /** A detected track is seen at this frame, at this position, and no longer resting. */
    method MarkSeen(frameIdx: int, pos: Point)
      modifies this
      ensures View() == old(View()).(lastSeenFrame := frameIdx, lastKnownPosition := Some(pos),
                                     framesSinceDetection := 0, isResting := false, restRoi := None)
    {
      lastSeenFrame := frameIdx;
      lastKnownPosition := Some(pos);
      framesSinceDetection := 0;
      isResting := false;
      restRoi := None;
    }

    /** The coupling statistics count one more detection, and one more coupled one for a coupled blob. */
    method CountDetection(kind: BlobKind)
      modifies this
      ensures View() == old(View()).(totalDetections := old(totalDetections) + 1,
                                     coupledDetections := old(coupledDetections) + if kind == Coupled then 1 else 0)
    {
      totalDetections := totalDetections + 1;
      if kind == Coupled {
        coupledDetections := coupledDetections + 1;
      }
    }

    /** The update of a matched track in match_blobs_to_tracks. */
    method RecordDetection(frameIdx: int, b: Blob)
      modifies this
      ensures View() == Recorded(old(View()), b, frameIdx)
    {
      AppendDetection(frameIdx, b);
      MarkSeen(frameIdx, b.centroid);
      AddPosition(b.centroid.x, b.centroid.y);
      CountDetection(b.kind);
    }

    /** The update of an unmatched track; the result says whether the track is kept. */
    method MissFrame(tp: TrackingParams) returns (kept: bool)
      modifies this
      ensures View() == Missed(old(View()), tp)
      ensures kept == Survives(old(View()), tp)
    {
      framesSinceDetection := framesSinceDetection + 1;
      kept := framesSinceDetection <= tp.maxSkipFrames;
      if kept {
        if !isResting && lastKnownPosition.Some? {
          isResting := true;
          var pos := lastKnownPosition.value;
          restRoi := Some(BBox(Trunc(pos.x - tp.restZoneRadius), Trunc(pos.y - tp.restZoneRadius),
                               Trunc(2.0 * tp.restZoneRadius), Trunc(2.0 * tp.restZoneRadius)));
        }
      }
    }
  }

  /** The views of a list of tracks. */
  function Views(ts: seq<Track>): (r: seq<TrackView>)
    reads set t | t in ts
    ensures |r| == |ts|
    ensures forall i :: 0 <= i < |ts| ==> r[i] == ts[i].View()
  {
    if ts == [] then []
    else Views(ts[..|ts| - 1]) + [ts[|ts| - 1].View()]
  }

  /** No track object occurs twice. */
  predicate Distinct(ts: seq<Track>)
  {
    forall i, j :: 0 <= i < j < |ts| ==> ts[i] != ts[j]
  }

  /** The tracks at the given indices, in the order of the indices. */
  function Pick(ts: seq<Track>, idx: seq<nat>): (r: seq<Track>)
    requires forall k :: 0 <= k < |idx| ==> idx[k] < |ts|
    ensures |r| == |idx| && forall k :: 0 <= k < |idx| ==> r[k] == ts[idx[k]]
  {
    seq(|idx|, k requires 0 <= k < |idx| => ts[idx[k]])
  }

  lemma PickAppend(ts: seq<Track>, a: seq<nat>, b: seq<nat>)
    requires forall k :: 0 <= k < |a| ==> a[k] < |ts|
    requires forall k :: 0 <= k < |b| ==> b[k] < |ts|
    ensures Pick(ts, a + b) == Pick(ts, a) + Pick(ts, b)
  {
  }

  /** The unmatched tracks below n that survive their miss, in index order. */
  function SurvivorTracks(ts: seq<Track>, views: seq<TrackView>, matched: set<nat>, tp: TrackingParams, n: nat): seq<Track>
    requires n <= |ts| && n <= |views|
  {
    if n == 0 then []
    else
      SurvivorTracks(ts, views, matched, tp, n - 1)
        + (if n - 1 !in matched && Survives(views[n - 1], tp) then [ts[n - 1]] else [])
  }

  lemma {:induction false} SurvivorTracksPick(ts: seq<Track>, views: seq<TrackView>, matched: set<nat>, tp: TrackingParams, n: nat)
    requires n <= |ts| && n <= |views|
    ensures SurvivorTracks(ts, views, matched, tp, n) == Pick(ts, UnmatchedSurvivors(views, matched, tp, n))
  {
    if n > 0 {
      SurvivorTracksPick(ts, views, matched, tp, n - 1);
      var prev := UnmatchedSurvivors(views, matched, tp, n - 1);
      var step := if n - 1 !in matched && Survives(views[n - 1], tp) then [n - 1] else [];
      PickAppend(ts, prev, step);
      if step == [] {
        assert prev + step == prev;
      } else {
        assert Pick(ts, step) == [ts[n - 1]];
      }
    }
  }

  /** The matched tracks below n, in index order. */
  function MatchedTracks(ts: seq<Track>, matched: set<nat>, n: nat): seq<Track>
    requires n <= |ts|
  {
    if n == 0 then []
    else MatchedTracks(ts, matched, n - 1) + (if n - 1 in matched then [ts[n - 1]] else [])
  }

  lemma {:induction false} MatchedTracksPick(ts: seq<Track>, matched: set<nat>, n: nat)
    requires n <= |ts|
    ensures MatchedTracks(ts, matched, n) == Pick(ts, MatchedIndices(matched, n))
  {
    if n > 0 {
      MatchedTracksPick(ts, matched, n - 1);
      var prev := MatchedIndices(matched, n - 1);
      var step := if n - 1 in matched then [n - 1] else [];
      PickAppend(ts, prev, step);
      if step == [] {
        assert prev + step == prev;
      } else {
        assert Pick(ts, step) == [ts[n - 1]];
      }
    }
  }

  /** A track's view after the accepted pairs so far: its blob recorded once matched, untouched otherwise. */
  function Partial(views: seq<TrackView>, blobs: seq<Blob>, accepted: seq<Cand>, i: nat, frameIdx: int): TrackView
    requires i < |views|
  {
    match PartnerOf(accepted, i)
    case Some(bi) => if bi < |blobs| then Recorded(views[i], blobs[bi], frameIdx) else views[i]
    case None => views[i]
  }

  lemma PartnerOfSnoc(s: seq<Cand>, c: Cand, col: nat)
    ensures PartnerOf(s + [c], col) == if c.b == col then Some(c.a) else PartnerOf(s, col)
  {
    assert (s + [c])[..|s|] == s;
  }

  /** Accepting one more pair records its blob on its track, which was untouched so far. */
  lemma PartialSnoc(views: seq<TrackView>, blobs: seq<Blob>, accepted: seq<Cand>, c: Cand, i: nat, frameIdx: int)
    requires i < |views| && c.a < |blobs| && c.b !in Cols(accepted)
    ensures Partial(views, blobs, accepted + [c], i, frameIdx) ==
      if i == c.b then Recorded(Partial(views, blobs, accepted, i, frameIdx), blobs[c.a], frameIdx)
      else Partial(views, blobs, accepted, i, frameIdx)
  {
    PartnerOfSnoc(accepted, c, i);
  }

  /** Survival of the unmatched tracks depends only on their own counters. */
  lemma {:induction false} SurvivorsFrame(a: seq<TrackView>, b: seq<TrackView>, matched: set<nat>, tp: TrackingParams, n: nat)
    requires n <= |a| && n <= |b|
    requires forall i :: 0 <= i < n && i !in matched ==> a[i].framesSinceDetection == b[i].framesSinceDetection
    ensures UnmatchedSurvivors(a, matched, tp, n) == UnmatchedSurvivors(b, matched, tp, n)
  {
    if n > 0 {
      SurvivorsFrame(a, b, matched, tp, n - 1);
    }
  }

  /** Every candidate of the sorted list indexes a blob and a track. */
  lemma SortedCandidatesBounds(blobs: seq<Blob>, views: seq<TrackView>, tp: TrackingParams)
    requires HasCentroids(views)
    ensures forall c :: c in SortByKey(Candidates(KeyMatrix(blobs, views, tp), tp.maxDistance)) ==>
      c.a < |blobs| && c.b < |views|
  {
    var d := KeyMatrix(blobs, views, tp);
    var cands := Candidates(d, tp.maxDistance);
    SortByKeySortedPerm(cands);
    forall c | c in SortByKey(cands) ensures c.a < |blobs| && c.b < |views| {
      assert c in multiset(SortByKey(cands));
      CandidatesIff(d, |views|, tp.maxDistance, c);
    }
  }

  /** The central distance computation of match_blobs_to_tracks: blob to last centroid, squared. */
  function RawDistances(blobs: seq<Blob>, views: seq<TrackView>): (d: seq<seq<real>>)
    requires HasCentroids(views)
    ensures |d| == |blobs| && IsMatrix(d, |views|)
    ensures forall i, j :: 0 <= i < |blobs| && 0 <= j < |views| ==>
      d[i][j] == SqDist(blobs[i].centroid, Last(views[j].centroids))
  {
    seq(|blobs|, i requires 0 <= i < |blobs| =>
      seq(|views|, j requires 0 <= j < |views| => SqDist(blobs[i].centroid, Last(views[j].centroids))))
  }

  /** The rest-zone adjustment loop: entries of resting tracks for blobs in their zone are quartered (distance halved). */
  method AdjustForRest(blobs: seq<Blob>, views: seq<TrackView>, tp: TrackingParams) returns (distances: seq<seq<real>>)
    requires HasCentroids(views)
    ensures distances == KeyMatrix(blobs, views, tp)
  {
    distances := RawDistances(blobs, views);
    for t := 0 to |views|
      invariant |distances| == |blobs| && IsMatrix(distances, |views|)
      invariant forall i, j :: 0 <= i < |blobs| && 0 <= j < |views| ==>
        distances[i][j] == if j < t then MatchKey(blobs[i], views[j], tp) else SqDist(blobs[i].centroid, Last(views[j].centroids))
    {
      if views[t].isResting {
        for b := 0 to |blobs|
          invariant |distances| == |blobs| && IsMatrix(distances, |views|)
          invariant forall i, j :: 0 <= i < |blobs| && 0 <= j < |views| ==>
            distances[i][j] ==
              if j < t || (j == t && i < b) then MatchKey(blobs[i], views[j], tp)
              else SqDist(blobs[i].centroid, Last(views[j].centroids))
        {
          if InRestZone(blobs[b], views[t], tp) {
            distances := distances[b := distances[b][t := distances[b][t] / 4.0]];
          }
        }
      }
    }
    var expected := KeyMatrix(blobs, views, tp);
    forall i | 0 <= i < |blobs| ensures distances[i] == expected[i] {
    }
  }

  /** One step of the unmatched-track loop: track t takes a miss; the result says whether it is kept. */
  method AgeTrack(tracks: seq<Track>, ghost views: seq<TrackView>, matched: set<nat>, t: nat, tp: TrackingParams)
    returns (survives: bool)
    requires Distinct(tracks) && |views| == |tracks| && t < |tracks| && t !in matched
    requires forall i {:trigger tracks[i].View()} :: 0 <= i < |tracks| ==>
      tracks[i].View() == if i < t && i !in matched then Missed(views[i], tp) else views[i]
    modifies tracks[t]
    ensures forall i {:trigger tracks[i].View()} :: 0 <= i < |tracks| ==>
      tracks[i].View() == if i < t + 1 && i !in matched then Missed(views[i], tp) else views[i]
    ensures survives == Survives(views[t], tp)
  {
    var track := tracks[t];
    survives := track.MissFrame(tp);
    forall i | 0 <= i < |tracks| && i != t ensures tracks[i].View() == old(tracks[i].View()) {
      assert tracks[i] != track;
    }
  }

  /**
   * The unmatched-track loop of match_blobs_to_tracks: every track whose index
   * is not matched takes a miss, and those within the skip budget are kept,
   * in index order.
   */
  method AgeUnmatched(tracks: seq<Track>, matched: set<nat>, tp: TrackingParams)
    returns (kept: seq<Track>)
    requires Distinct(tracks)
    modifies set t | t in tracks
    ensures forall i {:trigger tracks[i].View()} :: 0 <= i < |tracks| ==>
      tracks[i].View() == if i in matched then old(tracks[i].View()) else Missed(old(tracks[i].View()), tp)
    ensures kept == Pick(tracks, UnmatchedSurvivors(old(Views(tracks)), matched, tp, |tracks|))
  {
    ghost var views := Views(tracks);
    kept := [];
    for t := 0 to |tracks|
      invariant forall i {:trigger tracks[i].View()} :: 0 <= i < |tracks| ==>
        tracks[i].View() == if i < t && i !in matched then Missed(views[i], tp) else views[i]
      invariant kept == SurvivorTracks(tracks, views, matched, tp, t)
    {
      if t !in matched {
        var survives := AgeTrack(tracks, views, matched, t, tp);
        if survives {
          kept := kept + [tracks[t]];
        }
      }
    }
    SurvivorTracksPick(tracks, views, matched, tp, |tracks|);
  }

  /** The matched-track loop: matched tracks in index order. */
  method CollectMatched(tracks: seq<Track>, matched: set<nat>) returns (collected: seq<Track>)
    ensures collected == Pick(tracks, MatchedIndices(matched, |tracks|))
  {
    collected := [];
    for t := 0 to |tracks|
      invariant collected == MatchedTracks(tracks, matched, t)
    {
      if t in matched {
        collected := collected + [tracks[t]];
      }
    }
    MatchedTracksPick(tracks, matched, |tracks|);
  }

  /** One accepted pair of the greedy loop: its blob is recorded on its track. */
  method AcceptPair(blobs: seq<Blob>, tracks: seq<Track>, ghost views: seq<TrackView>, ghost accepted: seq<Cand>,
                    c: Cand, frameIdx: int)
    requires Distinct(tracks) && |views| == |tracks|
    requires c.a < |blobs| && c.b < |tracks| && c.b !in Cols(accepted)
    requires forall i {:trigger tracks[i].View()} :: 0 <= i < |tracks| ==> tracks[i].View() == Partial(views, blobs, accepted, i, frameIdx)
    modifies tracks[c.b]
    ensures forall i {:trigger tracks[i].View()} :: 0 <= i < |tracks| ==> tracks[i].View() == Partial(views, blobs, accepted + [c], i, frameIdx)
  {
    var track := tracks[c.b];
    track.RecordDetection(frameIdx, blobs[c.a]);
    forall i | 0 <= i < |tracks|
      ensures tracks[i].View() == Partial(views, blobs, accepted + [c], i, frameIdx)
    {
      PartialSnoc(views, blobs, accepted, c, i, frameIdx);
      if i != c.b {
        assert tracks[i] != track;
      }
    }
  }

  /**
   * The greedy loop of match_blobs_to_tracks: each candidate whose blob and
   * track are both still free is accepted and its blob recorded on its track.
   */
  method RecordAccepted(blobs: seq<Blob>, tracks: seq<Track>, sorted: seq<Cand>, frameIdx: int)
    returns (matchedBlobs: set<nat>, matchedTracks: set<nat>)
    requires Distinct(tracks)
    requires forall c :: c in sorted ==> c.a < |blobs| && c.b < |tracks|
    modifies set t | t in tracks
    ensures var accepted := Greedy(sorted, {}, {});
      && matchedBlobs == Rows(accepted) && matchedTracks == Cols(accepted)
      && forall i {:trigger tracks[i].View()} :: 0 <= i < |tracks| ==>
           tracks[i].View() == Partial(old(Views(tracks)), blobs, accepted, i, frameIdx)
  {
    ghost var views := Views(tracks);
    matchedBlobs, matchedTracks := {}, {};
    ghost var accepted: seq<Cand> := [];
    GreedyStart(sorted);
    for k := 0 to |sorted|
      invariant matchedBlobs == Rows(accepted) && matchedTracks == Cols(accepted)
      invariant accepted + Greedy(sorted[k..], matchedBlobs, matchedTracks) == Greedy(sorted, {}, {})
      invariant forall i {:trigger tracks[i].View()} :: 0 <= i < |tracks| ==> tracks[i].View() == Partial(views, blobs, accepted, i, frameIdx)
    {
      var c := sorted[k];
      GreedyStep(sorted, k, accepted, matchedBlobs, matchedTracks);
      if c.a !in matchedBlobs && c.b !in matchedTracks {
        assert c in sorted;
        AcceptPair(blobs, tracks, views, accepted, c, frameIdx);
        RowsColsSnoc(accepted, c);
        accepted := accepted + [c];
        matchedBlobs := matchedBlobs + {c.a};
        matchedTracks := matchedTracks + {c.b};
      }
    }
    GreedyDone(sorted, accepted, matchedBlobs, matchedTracks);
  }

  /**
   * After the greedy loop and the ageing loop each track is at its step view,
   * and the ageing loop saw the same survivors as the old views would give.
   */
  lemma {:induction false} ComposeStep(views: seq<TrackView>, afterMatch: seq<TrackView>, final: seq<TrackView>,
                                       blobs: seq<Blob>, pairs: seq<Cand>, frameIdx: int, tp: TrackingParams)
    requires |afterMatch| == |views| && |final| == |views|
    requires forall i :: 0 <= i < |views| ==> afterMatch[i] == Partial(views, blobs, pairs, i, frameIdx)
    requires forall i :: 0 <= i < |views| ==>
      final[i] == if i in Cols(pairs) then afterMatch[i] else Missed(afterMatch[i], tp)
    ensures forall i :: 0 <= i < |views| ==> final[i] == StepView(views, blobs, pairs, i, frameIdx, tp)
    ensures UnmatchedSurvivors(afterMatch, Cols(pairs), tp, |views|) == UnmatchedSurvivors(views, Cols(pairs), tp, |views|)
  {
    forall i | 0 <= i < |views| ensures final[i] == StepView(views, blobs, pairs, i, frameIdx, tp) {
      assert PartnerOf(pairs, i).None? <==> i !in Cols(pairs);
    }
    SurvivorsFrame(afterMatch, views, Cols(pairs), tp, |views|);
  }

  /** The distance matrix, candidate list and sort of match_blobs_to_tracks. */
  method SortedCandidates(blobs: seq<Blob>, tracks: seq<Track>, tp: TrackingParams) returns (sorted: seq<Cand>)
    requires HasCentroids(Views(tracks))
    ensures sorted == SortByKey(Candidates(KeyMatrix(blobs, Views(tracks), tp), tp.maxDistance))
    ensures forall c :: c in sorted ==> c.a < |blobs| && c.b < |tracks|
  {
    var snapshot := Views(tracks);
    var distances := AdjustForRest(blobs, snapshot, tp);
    var pairs := EnumeratePairs(distances, |tracks|, tp.maxDistance);
    sorted := SortByKey(pairs);
    SortedCandidatesBounds(blobs, snapshot, tp);
  }

  /**
   * match_blobs_to_tracks: each track's new state is its step function
   * applied to its old state, the returned tracks are the surviving unmatched
   * ones and then the matched ones, each in index order, and the returned
   * blobs are those no track took, in order.
   */
  method MatchBlobsToTracks(blobs: seq<Blob>, tracks: seq<Track>, frameIdx: int, tp: TrackingParams)
    returns (kept: seq<Track>, unmatched: seq<Blob>)
    requires Distinct(tracks)
    requires HasCentroids(Views(tracks))
    modifies set t | t in tracks
    ensures forall i {:trigger tracks[i].View()} :: 0 <= i < |tracks| ==>
      tracks[i].View() == StepView(old(Views(tracks)), blobs, MatchPairs(blobs, old(Views(tracks)), tp), i, frameIdx, tp)
    ensures kept == Pick(tracks, KeptOrder(old(Views(tracks)), MatchPairs(blobs, old(Views(tracks)), tp), tp))
    ensures unmatched == Unclaimed(blobs, Rows(MatchPairs(blobs, old(Views(tracks)), tp)))
  {
    ghost var views := Views(tracks);
    ghost var spec := MatchPairs(blobs, views, tp);
    if |tracks| == 0 {
      NoTracksAllNew(blobs, tp);
      return [], blobs;
    }
    if |blobs| == 0 {
      NoBlobsAllMiss(views, frameIdx, tp);
      KeptOrderNoPairs(views, tp, |tracks|);
      kept := AgeUnmatched(tracks, {}, tp);
      return kept, [];
    }
    var pairs := SortedCandidates(blobs, tracks, tp);
    var matchedBlobs, matchedTracks := RecordAccepted(blobs, tracks, pairs, frameIdx);
    ghost var afterMatch := Views(tracks);
    var ageing := AgeUnmatched(tracks, matchedTracks, tp);
    ghost var final := Views(tracks);
    ComposeStep(views, afterMatch, final, blobs, spec, frameIdx, tp);
    var collected := CollectMatched(tracks, matchedTracks);
    PickAppend(tracks, UnmatchedSurvivors(views, matchedTracks, tp, |tracks|), MatchedIndices(matchedTracks, |tracks|));
    kept := ageing + collected;
    unmatched := Unclaimed(blobs, matchedBlobs);
  }

  /** Picking distinct indices of distinct tracks gives distinct tracks. */
  lemma PickDistinct(ts: seq<Track>, idx: seq<nat>)
    requires Distinct(ts)
    requires forall k :: 0 <= k < |idx| ==> idx[k] < |ts|
    requires forall p, q :: 0 <= p < q < |idx| ==> idx[p] != idx[q]
    ensures Distinct(Pick(ts, idx))
  {
  }

  /** A list of tracks whose members have the given views has those views. */
  lemma {:induction false} ViewsPointwise(ts: seq<Track>, vs: seq<TrackView>)
    requires |ts| == |vs|
    requires forall j :: 0 <= j < |ts| ==> ts[j].View() == vs[j]
    ensures Views(ts) == vs
  {
  }

  /** The tracks match_blobs_to_tracks returns are distinct members of its input and have the kept views. */
  lemma KeptTracks(tracks: seq<Track>, kept: seq<Track>, views: seq<TrackView>, blobs: seq<Blob>, frameIdx: int, tp: TrackingParams)
    requires Distinct(tracks) && |tracks| == |views| && HasCentroids(views)
    requires forall i {:trigger tracks[i].View()} :: 0 <= i < |tracks| ==>
      tracks[i].View() == StepView(views, blobs, MatchPairs(blobs, views, tp), i, frameIdx, tp)
    requires kept == Pick(tracks, KeptOrder(views, MatchPairs(blobs, views, tp), tp))
    ensures Views(kept) == KeptViews(views, blobs, frameIdx, tp)
    ensures Distinct(kept)
    ensures forall t :: t in kept ==> t in tracks
  {
    var pairs := MatchPairs(blobs, views, tp);
    var order := KeptOrder(views, pairs, tp);
    KeptOrderSpec(views, pairs, tp);
    PickDistinct(tracks, order);
    var keptViews := KeptViews(views, blobs, frameIdx, tp);
    forall j | 0 <= j < |kept| ensures kept[j].View() == keptViews[j] && kept[j] in tracks {
      assert kept[j] == tracks[order[j]];
    }
    ViewsPointwise(kept, keptViews);
  }

  lemma DistinctAppend(a: seq<Track>, b: seq<Track>)
    requires Distinct(a) && Distinct(b)
    requires forall i, j :: 0 <= i < |a| && 0 <= j < |b| ==> a[i] != b[j]
    ensures Distinct(a + b)
  {
  }

  lemma ViewsAppend(a: seq<Track>, b: seq<Track>)
    ensures Views(a + b) == Views(a) + Views(b)
  {
    ViewsPointwise(a + b, Views(a) + Views(b));
  }

  /** The new-track loop of the frame loop: one fresh track per leftover blob, numbered from nextId. */
  method StartTracks(unmatched: seq<Blob>, frameIdx: int, nextId: int) returns (started: seq<Track>)
    ensures Views(started) == NewViews(unmatched, frameIdx, nextId)
    ensures Distinct(started)
    ensures forall t :: t in started ==> fresh(t)
  {
    ghost var newViews := NewViews(unmatched, frameIdx, nextId);
    started := [];
    var id := nextId;
    for k := 0 to |unmatched|
      invariant id == nextId + k && |started| == k
      invariant forall j :: 0 <= j < k ==> fresh(started[j]) && started[j].View() == newViews[j]
      invariant Distinct(started)
    {
      var t := new Track.FromBlob(id, frameIdx, unmatched[k]);
      started := started + [t];
      id := id + 1;
    }
    ViewsPointwise(started, newViews);
  }

  /**
   * Association followed by the new-track loop of the frame loop: the live
   * tracks afterwards are exactly the frame step of their views, the new
   * ones are fresh objects, and no object occurs twice.
   */
  method ProcessFrame(tracks: seq<Track>, blobs: seq<Blob>, frameIdx: int, nextId: int, tp: TrackingParams)
    returns (active: seq<Track>, newNextId: int)
    requires Distinct(tracks)
    requires HasCentroids(Views(tracks))
    modifies set t | t in tracks
    ensures Views(active) == FrameStep(old(Views(tracks)), blobs, frameIdx, nextId, tp)
    ensures newNextId == nextId + |UnmatchedBlobs(blobs, old(Views(tracks)), tp)|
    ensures Distinct(active)
    ensures forall t :: t in active ==> t in tracks || fresh(t)
  {
    ghost var views := Views(tracks);
    var kept, unmatched := MatchBlobsToTracks(blobs, tracks, frameIdx, tp);
    KeptTracks(tracks, kept, views, blobs, frameIdx, tp);
    var started := StartTracks(unmatched, frameIdx, nextId);
    forall i, j | 0 <= i < |kept| && 0 <= j < |started| ensures kept[i] != started[j] {
      assert started[j] in started;
    }
    DistinctAppend(kept, started);
    ViewsAppend(kept, started);
    active := kept + started;
    newNextId := nextId + |unmatched|;
  }
}
