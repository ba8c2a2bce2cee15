/**
 * What benthic_activity_detection_v5.py adds to the v4 tracker: the
 * memory-capped choice of frames for the median background in
 * compute_background, and the processed-frame numbering of
 * subtract_background_and_detect, which tracks only every Nth raw frame and
 * numbers the processed frames 0, 1, 2, ... The blob detection, association
 * and validation of v5 are the v4 ones and are reused from the v4 modules.
 */
module BenthicV5 {

  import opened Wrappers
  import opened Blobs
  import opened Tracks
  import opened TrackManager
  import opened TrackMetrics
  import opened VideoTracking
  import opened Sampling

  datatype BackgroundParams = BackgroundParams(sampleEveryNthFrame: int, outputFpsReduction: int)

  /** The dataclass defaults of BackgroundParams and compute_background's frame cap. */
  const DefaultBackgroundParams := BackgroundParams(3, 3)
  const DefaultMaxFramesInMemory := 150

  /** The dataclass defaults of DetectionParams in the v5 script. */
  const DefaultDetectionParamsV5 := DetectionParams(30, 10, 25, 30, 2000, 0.3, 3.0, 5, 100.0, false, 1.3)

  // ---------------------------------------------------------------------
  // compute_background: the sampling rate and the frames kept
  // ---------------------------------------------------------------------

  /**
   * effective_sample_rate: every Nth frame, unless that would keep more than
   * the frame cap, in which case total_frames // cap. Python raises on a
   * zero divisor.
   */
  function EffectiveSampleRate(totalFrames: int, nth: int, maxFrames: int): (r: Result<int, string>)
    ensures r.Failure? <==> nth == 0 || (FloorDiv(totalFrames, nth) > maxFrames && maxFrames == 0)
  {
    if nth == 0 then Failure(ZeroDivision)
    else if FloorDiv(totalFrames, nth) > maxFrames then
      if maxFrames == 0 then Failure(ZeroDivision) else Success(FloorDiv(totalFrames, maxFrames))
    else Success(nth)
  }

  /**
   * With a positive N and a positive cap the rate is positive: it is N when
   * every Nth frame fits under the cap, and otherwise total_frames // cap,
   * which is at least N.
   */
  lemma EffectiveSampleRatePositive(totalFrames: int, nth: int, maxFrames: int)
    requires nth >= 1 && maxFrames >= 1
    ensures EffectiveSampleRate(totalFrames, nth, maxFrames).Success?
    ensures EffectiveSampleRate(totalFrames, nth, maxFrames).value >= nth >= 1
    ensures totalFrames / nth <= maxFrames ==> EffectiveSampleRate(totalFrames, nth, maxFrames).value == nth
    ensures totalFrames / nth > maxFrames ==> EffectiveSampleRate(totalFrames, nth, maxFrames).value == totalFrames / maxFrames
  {
    FloorDivPositive(totalFrames, nth);
    FloorDivPositive(totalFrames, maxFrames);
    if totalFrames / nth > maxFrames {
      var q := totalFrames / nth;
      var s := totalFrames / maxFrames;
      MulMonotone(nth, maxFrames, q);
      assert nth * maxFrames <= totalFrames;
      if s < nth {
        MulMonotone(maxFrames, s + 1, nth);
        assert false;
      }
    }
  }

  /** Helper: multiplying by a non-negative factor keeps order. */
  lemma MulMonotone(c: int, a: int, b: int)
    requires c >= 0 && a <= b
    ensures c * a <= c * b
  {
    assert c * b - c * a == c * (b - a);
  }

  /** The number of frames the safety check lets into frames_list: the cap, and at least one. */
  function Cap(maxFrames: int): (c: nat)
    ensures c >= 1 && c >= maxFrames
  {
    if maxFrames >= 1 then maxFrames else 1
  }

  /**
   * The read loop of compute_background: the frames kept are the selected
   * frames in read order, up to the cap, where reading stops.
   */
  method CollectBackgroundFrames<F>(video: seq<F>, rate: int, maxFrames: int) returns (framesList: seq<F>)
    requires rate != 0
    ensures var idx := SampleIdx(|video|, rate);
      |framesList| == Min(|idx|, Cap(maxFrames))
    ensures forall k :: 0 <= k < |framesList| ==>
      k < |SampleIdx(|video|, rate)| && framesList[k] == video[SampleIdx(|video|, rate)[k]]
  {
    framesList := [];
    var frameIdx := 0;
    while frameIdx < |video|
      invariant 0 <= frameIdx <= |video|
      invariant |framesList| == |SampleIdx(frameIdx, rate)| < Cap(maxFrames)
      invariant forall k :: 0 <= k < |framesList| ==> framesList[k] == video[SampleIdx(frameIdx, rate)[k]]
    {
      ghost var before := SampleIdx(frameIdx, rate);
      assert SampleIdx(frameIdx + 1, rate) == before + (if FloorMod(frameIdx, rate) == 0 then [frameIdx] else []);
      if FloorMod(frameIdx, rate) == 0 {
        framesList := framesList + [video[frameIdx]];
        if |framesList| >= maxFrames {
          SampleIdxPrefix(frameIdx + 1, |video|, rate);
          break;
        }
      }
      frameIdx := frameIdx + 1;
    }
    SampleIdxPrefix(frameIdx, |video|, rate);
  }

  /**
   * The rate computation and the read loop of compute_background end
   * without an exception: the rate is defined, and a zero rate is never
   * used because the video has no frame.
   */
  predicate ReadLoopFinishes(rate: Result<int, string>, videoLength: nat)
  {
    rate.Success? && (rate.value != 0 || videoLength == 0)
  }

  /**
   * The background part of compute_background: the frames the median is
   * taken over, or the ZeroDivisionError of the rate computation, of the
   * read loop's % or of output_fps = fps / output_fps_reduction, whichever
   * comes first.
   */
  method BackgroundFrames<F>(video: seq<F>, totalFrames: int, bp: BackgroundParams, maxFrames: int)
    returns (r: Result<seq<F>, string>)
    ensures var rate := EffectiveSampleRate(totalFrames, bp.sampleEveryNthFrame, maxFrames);
      r.Success? <==> ReadLoopFinishes(rate, |video|) && bp.outputFpsReduction != 0
    ensures var rate := EffectiveSampleRate(totalFrames, bp.sampleEveryNthFrame, maxFrames);
      r.Failure? ==> r.error == (if ReadLoopFinishes(rate, |video|) then FloatDivision else ZeroDivision)
    ensures r.Success? ==> |r.value| <= Cap(maxFrames)
    ensures r.Success? ==>
      var rate := EffectiveSampleRate(totalFrames, bp.sampleEveryNthFrame, maxFrames).value;
      rate != 0 ==> |r.value| == Min(|SampleIdx(|video|, rate)|, Cap(maxFrames))
    ensures r.Success? ==>
      var rate := EffectiveSampleRate(totalFrames, bp.sampleEveryNthFrame, maxFrames).value;
      if rate == 0 then r.value == [] && |video| == 0
      else forall k :: 0 <= k < |r.value| ==> k < |SampleIdx(|video|, rate)| && r.value[k] == video[SampleIdx(|video|, rate)[k]]
  {
    var rate := EffectiveSampleRate(totalFrames, bp.sampleEveryNthFrame, maxFrames);
    if rate.Failure? {
      return Failure(rate.error);
    }
    var frames: seq<F> := [];
    if rate.value == 0 {
      if |video| > 0 {
        return Failure(ZeroDivision);
      }
    } else {
      frames := CollectBackgroundFrames(video, rate.value, maxFrames);
    }
    if bp.outputFpsReduction == 0 {
      return Failure(FloatDivision);
    }
    r := Success(frames);
  }

  // ---------------------------------------------------------------------
  // subtract_background_and_detect: the processed frames
  // ---------------------------------------------------------------------

  /** The raw frames that are processed, in read order; processed frame k is the k-th of them. */
  function ProcessedFrames(video: seq<FrameComponents>, reduction: int): (r: seq<FrameComponents>)
    requires reduction != 0
  {
    FramesAt(video, SampleIdx(|video|, reduction))
  }

  /**
   * Processed frame k is the k-th raw frame whose index is a multiple of the
   * reduction; the raw indices used increase, and no multiple is skipped.
   */
  lemma ProcessedFramesSpec(video: seq<FrameComponents>, reduction: int)
    requires reduction != 0
    ensures var idx := SampleIdx(|video|, reduction);
      && |ProcessedFrames(video, reduction)| == |idx|
      && (forall k :: 0 <= k < |idx| ==> ProcessedFrames(video, reduction)[k] == video[idx[k]] && FloorMod(idx[k], reduction) == 0)
      && (forall i, j :: 0 <= i < j < |idx| ==> idx[i] < idx[j])
      && (forall i :: 0 <= i < |video| && FloorMod(i, reduction) == 0 ==> i in idx)
  {
    SampleIdxSpec(|video|, reduction);
  }

  /**
   * One raw frame of the v5 loop that is processed: detection with the
   * processed-frame number, the coupling tally, association and new tracks.
   */
  method ProcessRawFrame(ghost frames: seq<seq<Blob>>, p: nat, fc: FrameComponents, dp: DetectionParams, tp: TrackingParams,
                         tracks: seq<Track>, nextId: int, totalDetections: nat, totalCoupled: nat)
    returns (active: seq<Track>, newNextId: int, newDetections: nat, newCoupled: nat)
    requires p < |frames| && frames[p] == DetectedBlobs(fc, p, dp)
    requires Views(tracks) == Run(frames[..p], tp).views && nextId == Run(frames[..p], tp).nextId
    requires Distinct(tracks)
    requires totalDetections == TotalBlobs(frames[..p]) && totalCoupled == TotalCoupled(frames[..p])
    modifies set t | t in tracks
    ensures Views(active) == Run(frames[..p + 1], tp).views && newNextId == Run(frames[..p + 1], tp).nextId
    ensures Distinct(active) && forall t :: t in active ==> t in tracks || fresh(t)
    ensures newDetections == TotalBlobs(frames[..p + 1]) && newCoupled == TotalCoupled(frames[..p + 1])
  {
    var blobs := DetectBlobs(fc, p, dp);
    newDetections, newCoupled := AddTally(frames, p, blobs, totalDetections, totalCoupled);
    active, newNextId := AdvanceTracks(frames, p, blobs, tracks, nextId, tp);
  }

  /**
   * Raw frame i is the next processed frame when its index is a multiple of
   * the reduction, and is skipped otherwise.
   */
  lemma RawFrameSelected(video: seq<FrameComponents>, i: nat, reduction: int, dp: DetectionParams)
    requires reduction != 0 && i < |video|
    ensures var p := |SampleIdx(i, reduction)|;
      && |SampleIdx(i + 1, reduction)| == p + (if FloorMod(i, reduction) == 0 then 1 else 0)
      && |SampleIdx(i + 1, reduction)| <= |ClipBlobs(ProcessedFrames(video, reduction), dp)|
      && (FloorMod(i, reduction) == 0 ==> ClipBlobs(ProcessedFrames(video, reduction), dp)[p] == DetectedBlobs(video[i], p, dp))
  {
    var idx := SampleIdx(|video|, reduction);
    var p := |SampleIdx(i, reduction)|;
    assert SampleIdx(i + 1, reduction) == SampleIdx(i, reduction) + (if FloorMod(i, reduction) == 0 then [i] else []);
    SampleIdxPrefix(i + 1, |video|, reduction);
    if FloorMod(i, reduction) == 0 {
      assert idx[p] == SampleIdx(i + 1, reduction)[p] == i;
    }
  }

  /**
   * One raw frame of the loop of subtract_background_and_detect: it is
   * processed, as the next processed frame, exactly when its index is a
   * multiple of the reduction.
   */
  method RawFrame(ghost frames: seq<seq<Blob>>, video: seq<FrameComponents>, frameIdx: nat, reduction: int,
                  dp: DetectionParams, tp: TrackingParams,
                  tracks: seq<Track>, nextId: int, processed: nat, totalDetections: nat, totalCoupled: nat)
    returns (active: seq<Track>, newNextId: int, newProcessed: nat, newDetections: nat, newCoupled: nat)
    requires reduction != 0 && frameIdx < |video|
    requires frames == ClipBlobs(ProcessedFrames(video, reduction), dp)
    requires processed == |SampleIdx(frameIdx, reduction)| <= |frames|
    requires Views(tracks) == Run(frames[..processed], tp).views && nextId == Run(frames[..processed], tp).nextId
    requires Distinct(tracks)
    requires totalDetections == TotalBlobs(frames[..processed]) && totalCoupled == TotalCoupled(frames[..processed])
    modifies set t | t in tracks
    ensures newProcessed == |SampleIdx(frameIdx + 1, reduction)| <= |frames|
    ensures Views(active) == Run(frames[..newProcessed], tp).views && newNextId == Run(frames[..newProcessed], tp).nextId
    ensures Distinct(active) && forall t :: t in active ==> t in tracks || fresh(t)
    ensures newDetections == TotalBlobs(frames[..newProcessed]) && newCoupled == TotalCoupled(frames[..newProcessed])
  {
    RawFrameSelected(video, frameIdx, reduction, dp);
    if FloorMod(frameIdx, reduction) == 0 {
      active, newNextId, newDetections, newCoupled :=
        ProcessRawFrame(frames, processed, video[frameIdx], dp, tp, tracks, nextId, totalDetections, totalCoupled);
      newProcessed := processed + 1;
    } else {
      active, newNextId, newProcessed, newDetections, newCoupled := tracks, nextId, processed, totalDetections, totalCoupled;
    }
  }

  /**
   * The frame loop of subtract_background_and_detect: only raw frames whose
   * index is a multiple of output_fps_reduction are processed, numbered by
   * consecutive processed-frame indices, and the live tracks are Run over
   * the processed frames. A zero reduction raises on the first frame.
   */
  method TrackClipV5(video: seq<FrameComponents>, reduction: int, dp: DetectionParams, tp: TrackingParams)
    returns (error: Option<string>, tracks: seq<Track>, processed: nat, totalDetections: nat, totalCoupled: nat)
    ensures error.Some? <==> reduction == 0 && |video| > 0
    ensures reduction == 0 ==> tracks == [] && processed == 0 && totalDetections == 0 && totalCoupled == 0
    ensures reduction != 0 ==>
      && processed == |SampleIdx(|video|, reduction)|
      && Views(tracks) == Run(ClipBlobs(ProcessedFrames(video, reduction), dp), tp).views
      && totalDetections == TotalBlobs(ClipBlobs(ProcessedFrames(video, reduction), dp))
      && totalCoupled == TotalCoupled(ClipBlobs(ProcessedFrames(video, reduction), dp))
    ensures Distinct(tracks) && forall t :: t in tracks ==> fresh(t)
  {
    tracks, processed, totalDetections, totalCoupled := [], 0, 0, 0;
    if reduction == 0 {
      error := if |video| > 0 then Some(ZeroDivision) else None;
      return;
    }
    error := None;
    ghost var frames := ClipBlobs(ProcessedFrames(video, reduction), dp);
    var nextId := 1;
    assert frames[..0] == [];
    for frameIdx := 0 to |video|
      invariant processed == |SampleIdx(frameIdx, reduction)| <= |frames|
      invariant Views(tracks) == Run(frames[..processed], tp).views && nextId == Run(frames[..processed], tp).nextId
      invariant Distinct(tracks) && forall t :: t in tracks ==> fresh(t)
      invariant totalDetections == TotalBlobs(frames[..processed]) && totalCoupled == TotalCoupled(frames[..processed])
    {
      tracks, nextId, processed, totalDetections, totalCoupled :=
        RawFrame(frames, video, frameIdx, reduction, dp, tp, tracks, nextId, processed, totalDetections, totalCoupled);
    }
    assert frames[..processed] == frames;
  }

  /**
   * The tracking part of subtract_background_and_detect: the live tracks at
   * the end of the clip, each marked by validate_track.
   */
  method ProcessVideoV5(video: seq<FrameComponents>, bp: BackgroundParams, dp: DetectionParams,
                        tp: TrackingParams, vp: ValidationParams)
    returns (error: Option<string>, completed: seq<Track>, overallRate: real)
    ensures error.Some? <==> bp.outputFpsReduction == 0 && |video| > 0
    ensures bp.outputFpsReduction != 0 ==>
      Views(completed) == Run(ClipBlobs(ProcessedFrames(video, bp.outputFpsReduction), dp), tp).views
    ensures forall i :: 0 <= i < |completed| ==> completed[i].isValid == ValidateTrack(completed[i].View(), vp)
    ensures bp.outputFpsReduction != 0 ==>
      var frames := ClipBlobs(ProcessedFrames(video, bp.outputFpsReduction), dp);
      overallRate == OverallCouplingRate(TotalCoupled(frames), TotalBlobs(frames))
    ensures bp.outputFpsReduction == 0 ==> overallRate == 0.0
    ensures 0.0 <= overallRate <= 100.0
  {
    var tracks, processed, totalDetections, totalCoupled;
    error, tracks, processed, totalDetections, totalCoupled := TrackClipV5(video, bp.outputFpsReduction, dp, tp);
    completed := ValidateTracks(tracks, vp);
    if bp.outputFpsReduction != 0 {
      TotalCoupledBound(ClipBlobs(ProcessedFrames(video, bp.outputFpsReduction), dp));
    }
    overallRate := OverallCouplingRate(totalCoupled, totalDetections);
  }
}
