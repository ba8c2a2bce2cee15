/**
 * The frame loop of process_video in benthic_activity_detection_v4.py:
 * detection on each frame, association and new tracks, the per-frame
 * detection counts and the clip-wide coupling tally, then the validation of
 * the tracks still live at the end of the clip. Frame decoding, rendering
 * and the output files are not modelled; a clip is given as the component
 * lists of its frames.
 */
module VideoTracking {

  import opened Wrappers
  import opened Sampling
  import opened Blobs
  import opened Tracks
  import opened TrackManager
  import opened TrackMetrics

  /** One entry of frame_detection_counts, without its timestamp. */
  datatype FrameSummary = FrameSummary(frame: int, activeTracks: nat, blobsDetected: nat, coupledBlobs: nat)

  /** The blobs of every frame of a clip; frame k is detected with frame index k. */
  function ClipBlobs(clip: seq<FrameComponents>, dp: DetectionParams): (r: seq<seq<Blob>>)
    ensures |r| == |clip|
    ensures forall k :: 0 <= k < |clip| ==> r[k] == DetectedBlobs(clip[k], k, dp)
  {
    seq(|clip|, k requires 0 <= k < |clip| => DetectedBlobs(clip[k], k, dp))
  }

  /** The counts recorded for frame k, taken once that frame's new tracks exist. */
  function Summary(frames: seq<seq<Blob>>, k: nat, tp: TrackingParams): FrameSummary
    requires k < |frames|
  {
    FrameSummary(k, CountActive(Run(frames[..k + 1], tp).views, k, tp), |frames[k]|, CountCoupled(frames[k]))
  }

  /** The counts recorded for the first k frames. */
  predicate CountsUpTo(counts: seq<FrameSummary>, frames: seq<seq<Blob>>, k: nat, tp: TrackingParams)
    requires k <= |frames|
  {
    |counts| == k && forall j :: 0 <= j < k ==> counts[j] == Summary(frames, j, tp)
  }

  lemma CountsSnoc(counts: seq<FrameSummary>, frames: seq<seq<Blob>>, k: nat, tp: TrackingParams)
    requires k < |frames| && CountsUpTo(counts, frames, k, tp)
    ensures CountsUpTo(counts + [Summary(frames, k, tp)], frames, k + 1, tp)
  {
    var next := counts + [Summary(frames, k, tp)];
    forall j | 0 <= j < k + 1 ensures next[j] == Summary(frames, j, tp) {
      if j < k {
        assert next[j] == counts[j];
      }
    }
  }

  /** The number of blobs over all frames. */
  function TotalBlobs(frames: seq<seq<Blob>>): nat
  {
    if frames == [] then 0 else TotalBlobs(frames[..|frames| - 1]) + |Last(frames)|
  }

  /** The number of coupled blobs over all frames. */
  function TotalCoupled(frames: seq<seq<Blob>>): nat
  {
    if frames == [] then 0 else TotalCoupled(frames[..|frames| - 1]) + CountCoupled(Last(frames))
  }

  /** The clip-wide tally never counts more coupled blobs than blobs. */
  lemma {:induction false} TotalCoupledBound(frames: seq<seq<Blob>>)
    ensures TotalCoupled(frames) <= TotalBlobs(frames)
  {
    if frames != [] {
      TotalCoupledBound(frames[..|frames| - 1]);
    }
  }

  /** overall_coupling_rate: a percentage of the detections, 0 when there are none. */
  function OverallCouplingRate(coupled: nat, total: nat): (rate: real)
    ensures total == 0 ==> rate == 0.0
    ensures coupled <= total ==> 0.0 <= rate <= 100.0
    ensures 0 < total == coupled ==> rate == 100.0
    ensures 0 < total && coupled == 0 ==> rate == 0.0
  {
    if total > 0 then
      var r := coupled as real / total as real;
      assert coupled <= total ==> r <= 1.0 by {
        if coupled <= total {
          assert r * (total as real) == coupled as real;
        }
      }
      r * 100.0
    else 0.0
  }

  /** The per-blob tally at the top of the frame loop. */
  method TallyFrame(blobs: seq<Blob>) returns (detections: nat, coupled: nat)
    ensures detections == |blobs| && coupled == CountCoupled(blobs)
  {
    detections, coupled := 0, 0;
    for k := 0 to |blobs|
      invariant detections == k && coupled == CountCoupled(blobs[..k])
    {
      assert blobs[..k + 1][..k] == blobs[..k];
      if blobs[k].kind == Coupled {
        coupled := coupled + 1;
      }
      detections := detections + 1;
    }
    assert blobs[..|blobs|] == blobs;
  }

  /** Each recorded count means what it says, and the active count never exceeds the live tracks. */
  lemma SummaryMeaning(frames: seq<seq<Blob>>, k: nat, tp: TrackingParams)
    requires k < |frames|
    ensures Summary(frames, k, tp).frame == k
    ensures Summary(frames, k, tp).activeTracks == CountSeenOrResting(Run(frames[..k + 1], tp).views, k)
    ensures Summary(frames, k, tp).activeTracks <= |Run(frames[..k + 1], tp).views|
    ensures Summary(frames, k, tp).coupledBlobs <= Summary(frames, k, tp).blobsDetected == |frames[k]|
  {
    var s := Run(frames[..k + 1], tp);
    ActiveCountMeaning(s.views, k, s.nextId, tp);
  }

  /** One pass of the frame loop, from the state after frame k - 1 to the state after frame k. */
  lemma RunSnoc(frames: seq<seq<Blob>>, k: nat, tp: TrackingParams)
    requires k < |frames|
    ensures HasCentroids(Run(frames[..k], tp).views)
    ensures Run(frames[..k + 1], tp).views
              == FrameStep(Run(frames[..k], tp).views, frames[k], k, Run(frames[..k], tp).nextId, tp)
    ensures Run(frames[..k + 1], tp).nextId
              == Run(frames[..k], tp).nextId + |UnmatchedBlobs(frames[k], Run(frames[..k], tp).views, tp)|
  {
    assert frames[..k + 1][..k] == frames[..k];
    var s := Run(frames[..k], tp);
    StateInvHasCentroids(s.views, k - 1, s.nextId, tp);
  }

  /** The clip-wide tallies after frame k add that frame's blobs to the tallies before it. */
  lemma TotalsSnoc(frames: seq<seq<Blob>>, k: nat)
    requires k < |frames|
    ensures TotalBlobs(frames[..k + 1]) == TotalBlobs(frames[..k]) + |frames[k]|
    ensures TotalCoupled(frames[..k + 1]) == TotalCoupled(frames[..k]) + CountCoupled(frames[k])
  {
    assert frames[..k + 1][..k] == frames[..k];
  }

  /** Association and new tracks for frame k, taking the tracks from their state after frame k - 1 to the next. */
  method AdvanceTracks(ghost frames: seq<seq<Blob>>, k: nat, blobs: seq<Blob>, tracks: seq<Track>, nextId: int, tp: TrackingParams)
    returns (active: seq<Track>, newNextId: int)
    requires k < |frames| && blobs == frames[k]
    requires Views(tracks) == Run(frames[..k], tp).views
    requires nextId == Run(frames[..k], tp).nextId
    requires Distinct(tracks)
    modifies set t | t in tracks
    ensures Views(active) == Run(frames[..k + 1], tp).views
    ensures newNextId == Run(frames[..k + 1], tp).nextId
    ensures Distinct(active) && forall t :: t in active ==> t in tracks || fresh(t)
  {
    RunSnoc(frames, k, tp);
    active, newNextId := ProcessFrame(tracks, blobs, k, nextId, tp);
  }

  /** detect_blobs on frame k of the clip. */
  method DetectFrame(clip: seq<FrameComponents>, dp: DetectionParams, k: nat) returns (blobs: seq<Blob>)
    requires k < |clip|
    ensures blobs == ClipBlobs(clip, dp)[k]
  {
    blobs := DetectBlobs(clip[k], k, dp);
  }

  /** The coupling tally of frame k added to the tally of the frames before it. */
  method AddTally(ghost frames: seq<seq<Blob>>, k: nat, blobs: seq<Blob>, totalDetections: nat, totalCoupled: nat)
    returns (newDetections: nat, newCoupled: nat)
    requires k < |frames| && blobs == frames[k]
    requires totalDetections == TotalBlobs(frames[..k]) && totalCoupled == TotalCoupled(frames[..k])
    ensures newDetections == TotalBlobs(frames[..k + 1]) && newCoupled == TotalCoupled(frames[..k + 1])
  {
    var detections, coupled := TallyFrame(blobs);
    TotalsSnoc(frames, k);
    newDetections := totalDetections + detections;
    newCoupled := totalCoupled + coupled;
  }

  /** The entry of frame_detection_counts for frame k, read off the tracks live after it. */
  method AddCounts(ghost frames: seq<seq<Blob>>, k: nat, blobs: seq<Blob>, active: seq<Track>,
                   counts: seq<FrameSummary>, tp: TrackingParams) returns (newCounts: seq<FrameSummary>)
    requires k < |frames| && blobs == frames[k]
    requires Views(active) == Run(frames[..k + 1], tp).views
    requires CountsUpTo(counts, frames, k, tp)
    ensures CountsUpTo(newCounts, frames, k + 1, tp)
  {
    var activeCount := CountActive(Views(active), k, tp);
    newCounts := counts + [FrameSummary(k, activeCount, |blobs|, CountCoupled(blobs))];
    CountsSnoc(counts, frames, k, tp);
  }

  /**
   * One pass of the frame loop once the frame's blobs are detected: the
   * coupling tally, association and new tracks, then the frame's counts.
   * Everything the loop carries goes from its value after frame k - 1 to its
   * value after frame k.
   */
  method TrackFrame(ghost frames: seq<seq<Blob>>, k: nat, blobs: seq<Blob>, tp: TrackingParams,
                    tracks: seq<Track>, nextId: int, counts: seq<FrameSummary>, totalDetections: nat, totalCoupled: nat)
    returns (active: seq<Track>, newNextId: int, newCounts: seq<FrameSummary>, newDetections: nat, newCoupled: nat)
    requires k < |frames| && blobs == frames[k]
    requires Views(tracks) == Run(frames[..k], tp).views
    requires nextId == Run(frames[..k], tp).nextId
    requires Distinct(tracks)
    requires totalDetections == TotalBlobs(frames[..k])
    requires totalCoupled == TotalCoupled(frames[..k])
    requires CountsUpTo(counts, frames, k, tp)
    modifies set t | t in tracks
    ensures Views(active) == Run(frames[..k + 1], tp).views
    ensures newNextId == Run(frames[..k + 1], tp).nextId
    ensures Distinct(active) && forall t :: t in active ==> t in tracks || fresh(t)
    ensures CountsUpTo(newCounts, frames, k + 1, tp)
    ensures newDetections == TotalBlobs(frames[..k + 1])
    ensures newCoupled == TotalCoupled(frames[..k + 1])
  {
    newDetections, newCoupled := AddTally(frames, k, blobs, totalDetections, totalCoupled);
    active, newNextId := AdvanceTracks(frames, k, blobs, tracks, nextId, tp);
    newCounts := AddCounts(frames, k, blobs, active, counts, tp);
  }

  /**
   * The frame loop of process_video. The live tracks and the next id are
   * those of Run over the detected frames, every track object is new and
   * occurs once, and frame k's counts are the Summary of frame k. A zero fps
   * raises in the first frame's timestamp frame_idx / fps.
   */
  method TrackClip(clip: seq<FrameComponents>, fps: real, dp: DetectionParams, tp: TrackingParams)
    returns (error: Option<string>, tracks: seq<Track>, nextId: int, counts: seq<FrameSummary>,
             totalDetections: nat, totalCoupled: nat)
    ensures error.Some? <==> fps == 0.0 && |clip| > 0
    ensures error.Some? ==> error.value == FloatDivision
    ensures Distinct(tracks) && forall t :: t in tracks ==> fresh(t)
    ensures error.None? ==>
      && Views(tracks) == Run(ClipBlobs(clip, dp), tp).views
      && nextId == Run(ClipBlobs(clip, dp), tp).nextId
      && |counts| == |clip| && (forall k :: 0 <= k < |clip| ==> counts[k] == Summary(ClipBlobs(clip, dp), k, tp))
      && totalDetections == TotalBlobs(ClipBlobs(clip, dp))
      && totalCoupled == TotalCoupled(ClipBlobs(clip, dp))
  {
    ghost var frames := ClipBlobs(clip, dp);
    error, tracks, nextId, counts, totalDetections, totalCoupled := None, [], 1, [], 0, 0;
    assert frames[..0] == [];
    for k := 0 to |clip|
      invariant k > 0 ==> fps != 0.0
      invariant Views(tracks) == Run(frames[..k], tp).views && nextId == Run(frames[..k], tp).nextId
      invariant Distinct(tracks) && forall t :: t in tracks ==> fresh(t)
      invariant CountsUpTo(counts, frames, k, tp)
      invariant totalDetections == TotalBlobs(frames[..k]) && totalCoupled == TotalCoupled(frames[..k])
    {
      var blobs := DetectFrame(clip, dp, k);
      tracks, nextId, counts, totalDetections, totalCoupled :=
        TrackFrame(frames, k, blobs, tp, tracks, nextId, counts, totalDetections, totalCoupled);
      if fps == 0.0 {
        error := Some(FloatDivision);
        return;
      }
    }
    assert frames[..|clip|] == frames;
  }

  /**
   * The validation loop after the clip: each live track gets is_valid from
   * validate_track, and the completed list is the live tracks in order.
   */
  method ValidateTracks(tracks: seq<Track>, vp: ValidationParams) returns (completed: seq<Track>)
    requires Distinct(tracks)
    modifies set t | t in tracks
    ensures completed == tracks
    ensures Views(tracks) == old(Views(tracks))
    ensures forall i :: 0 <= i < |tracks| ==> tracks[i].isValid == ValidateTrack(tracks[i].View(), vp)
  {
    completed := [];
    for i := 0 to |tracks|
      invariant completed == tracks[..i]
      invariant forall j :: 0 <= j < |tracks| ==> tracks[j].View() == old(tracks[j].View())
      invariant forall j :: 0 <= j < i ==> tracks[j].isValid == ValidateTrack(tracks[j].View(), vp)
    {
      tracks[i].isValid := ValidateTrack(tracks[i].View(), vp);
      completed := completed + [tracks[i]];
    }
    ViewsPointwise(tracks, old(Views(tracks)));
  }

  /**
   * The tracking part of process_video: the tracks it validates are the
   * tracks live after the last frame, each marked by validate_track; a track
   * dropped during the clip is never validated. A zero fps ends it with the
   * ZeroDivisionError of the first frame's timestamp; the guarded
   * duration_seconds before the loop does not prevent that.
   */
  method ProcessVideo(clip: seq<FrameComponents>, fps: real, dp: DetectionParams, tp: TrackingParams,
                      vp: ValidationParams)
    returns (error: Option<string>, completed: seq<Track>, counts: seq<FrameSummary>, overallRate: real)
    ensures error.Some? <==> fps == 0.0 && |clip| > 0
    ensures error.Some? ==> error.value == FloatDivision
    ensures error.None? ==>
      && Views(completed) == Run(ClipBlobs(clip, dp), tp).views
      && |counts| == |clip| && (forall k :: 0 <= k < |clip| ==> counts[k] == Summary(ClipBlobs(clip, dp), k, tp))
      && overallRate == OverallCouplingRate(TotalCoupled(ClipBlobs(clip, dp)), TotalBlobs(ClipBlobs(clip, dp)))
    ensures forall i :: 0 <= i < |completed| ==> completed[i].isValid == ValidateTrack(completed[i].View(), vp)
    ensures 0.0 <= overallRate <= 100.0
  {
    var tracks, nextId, totalDetections, totalCoupled;
    error, tracks, nextId, counts, totalDetections, totalCoupled := TrackClip(clip, fps, dp, tp);
    if error.Some? {
      return error, [], [], 0.0;
    }
    completed := ValidateTracks(tracks, vp);
    TotalCoupledBound(ClipBlobs(clip, dp));
    overallRate := OverallCouplingRate(totalCoupled, totalDetections);
  }
}
