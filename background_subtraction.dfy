/**
 * background_subtraction.py: which frames a clip contributes, the temporal
 * mean background, and the per-pixel subtraction with its two output
 * mappings. A frame is a flat sequence of 8-bit channel values; pixel
 * arithmetic is exact here, where the script works in 32-bit floats.
 */
module BackgroundSubtraction {

  import opened Wrappers
  import opened Sampling

  newtype byte = x: int | 0 <= x < 256

  /** Python's truth value of an optional number: None and zero are false. */
  predicate IsSetReal(o: Option<real>)
  {
    o.Some? && o.value != 0.0
  }

  predicate IsSetInt(o: Option<int>)
  {
    o.Some? && o.value != 0
  }

  // ---------------------------------------------------------------------
  // load_frames
  // ---------------------------------------------------------------------

  /**
   * frames_to_load: the reported frame count, lowered to int(fps * duration)
   * when a duration is given and then to max_frames when that is given; it
   * is the least of the bounds that apply.
   */
  function FramesToLoad(totalFrames: int, fps: real, duration: Option<real>, maxFrames: Option<int>): (n: int)
    ensures n <= totalFrames
    ensures IsSetReal(duration) ==> n <= Trunc(fps * duration.value)
    ensures IsSetInt(maxFrames) ==> n <= maxFrames.value
    ensures || n == totalFrames
            || (IsSetReal(duration) && n == Trunc(fps * duration.value))
            || (IsSetInt(maxFrames) && n == maxFrames.value)
  {
    var byDuration := if IsSetReal(duration) then Min(Trunc(fps * duration.value), totalFrames) else totalFrames;
    if IsSetInt(maxFrames) then Min(byDuration, maxFrames.value) else byDuration
  }

  /** The number of frames the read loop visits: frames_to_load, unless the video ends first. */
  function FramesRead(videoLength: nat, framesToLoad: int): (n: nat)
    ensures n <= videoLength && (framesToLoad >= 0 ==> n <= framesToLoad)
    ensures n == videoLength || n == framesToLoad || (n == 0 && framesToLoad < 0)
  {
    if framesToLoad <= 0 then 0 else Min(framesToLoad, videoLength)
  }

  /**
   * The read loop of load_frames: the frames kept are the frames read whose
   * count is a multiple of the subsample rate, and frame_indices records
   * exactly their counts, so loaded_frames equals len(frame_indices). A zero
   * fps raises before the loop, in the printed duration total_frames / fps;
   * a zero rate raises on the first frame read.
   */
  method LoadFrames<F>(video: seq<F>, fps: real, framesToLoad: int, subsampleRate: int)
    returns (error: Option<string>, frames: seq<F>, frameIndices: seq<nat>)
    ensures error.Some? <==> fps == 0.0 || (subsampleRate == 0 && FramesRead(|video|, framesToLoad) > 0)
    ensures error.Some? ==> error.value == if fps == 0.0 then FloatDivision else ZeroDivision
    ensures fps != 0.0 && subsampleRate != 0 ==>
      && frameIndices == SampleIdx(FramesRead(|video|, framesToLoad), subsampleRate)
      && |frames| == |frameIndices|
      && forall k :: 0 <= k < |frames| ==> frames[k] == video[frameIndices[k]]
  {
    error, frames, frameIndices := None, [], [];
    if fps == 0.0 {
      error := Some(FloatDivision);
      return;
    }
    var frameCount := 0;
    while frameCount < framesToLoad
      invariant 0 <= frameCount <= |video| && frameCount <= FramesRead(|video|, framesToLoad)
      invariant subsampleRate == 0 ==> frameCount == 0
      invariant subsampleRate != 0 ==> frameIndices == SampleIdx(frameCount, subsampleRate)
      invariant |frames| == |frameIndices|
      invariant forall k :: 0 <= k < |frames| ==> frameIndices[k] < |video| && frames[k] == video[frameIndices[k]]
    {
      if frameCount >= |video| {
        break;
      }
      if subsampleRate == 0 {
        error := Some(ZeroDivision);
        return;
      }
      if FloorMod(frameCount, subsampleRate) == 0 {
        frames := frames + [video[frameCount]];
        frameIndices := frameIndices + [frameCount];
      }
      frameCount := frameCount + 1;
    }
  }

  // ---------------------------------------------------------------------
  // compute_average_background
  // ---------------------------------------------------------------------

  /** The sum over the frames of channel value i. */
  function PixelSum(frames: seq<seq<byte>>, i: nat): real
    requires forall k :: 0 <= k < |frames| ==> i < |frames[k]|
  {
    if frames == [] then 0.0 else PixelSum(frames[..|frames| - 1], i) + frames[|frames| - 1][i] as real
  }

  /** A sum of m channel values lies between 0 and 255 m. */
  lemma {:induction false} PixelSumBounds(frames: seq<seq<byte>>, i: nat)
    requires forall k :: 0 <= k < |frames| ==> i < |frames[k]|
    ensures 0.0 <= PixelSum(frames, i) <= 255.0 * |frames| as real
  {
    if frames != [] {
      PixelSumBounds(frames[..|frames| - 1], i);
    }
  }

  /** The sum of m copies of a value is m times it. */
  lemma {:induction false} PixelSumConstant(frames: seq<seq<byte>>, i: nat, v: byte)
    requires forall k :: 0 <= k < |frames| ==> i < |frames[k]| && frames[k][i] == v
    ensures PixelSum(frames, i) == |frames| as real * v as real
  {
    if frames != [] {
      PixelSumConstant(frames[..|frames| - 1], i, v);
    }
  }

  /**
   * np.mean over the frame axis: the per-channel mean of the frames, each
   * of n channels. The mean of no frames is NaN, here None.
   */
  function AverageBackground(frames: seq<seq<byte>>, n: nat): (r: Option<seq<real>>)
    requires forall k :: 0 <= k < |frames| ==> |frames[k]| == n
    ensures r.Some? <==> |frames| > 0
    ensures r.Some? ==> |r.value| == n
  {
    if frames == [] then None
    else Some(seq(n, i requires 0 <= i < n => PixelSum(frames, i) / |frames| as real))
  }

  /** The mean background has every channel between 0 and 255. */
  lemma AverageInRange(frames: seq<seq<byte>>, n: nat)
    requires forall k :: 0 <= k < |frames| ==> |frames[k]| == n
    ensures AverageBackground(frames, n).Some? ==>
      forall i :: 0 <= i < n ==> 0.0 <= AverageBackground(frames, n).value[i] <= 255.0
  {
    if frames != [] {
      var avg := AverageBackground(frames, n).value;
      var m := |frames| as real;
      forall i | 0 <= i < n ensures 0.0 <= avg[i] <= 255.0 {
        PixelSumBounds(frames, i);
        assert avg[i] * m == PixelSum(frames, i);
      }
    }
  }

  /** The background of a clip whose frames are all the same frame is that frame. */
  lemma StaticBackground(frames: seq<seq<byte>>, f: seq<byte>)
    requires |frames| > 0 && forall k :: 0 <= k < |frames| ==> frames[k] == f
    ensures AverageBackground(frames, |f|).Some?
    ensures forall i :: 0 <= i < |f| ==> AverageBackground(frames, |f|).value[i] == f[i] as real
  {
    var avg := AverageBackground(frames, |f|).value;
    var m := |frames| as real;
    forall i | 0 <= i < |f| ensures avg[i] == f[i] as real {
      PixelSumConstant(frames, i, f[i]);
      assert avg[i] == PixelSum(frames, i) / m;
      DivCancel(m, f[i] as real);
    }
  }

  lemma DivCancel(m: real, v: real)
    requires m > 0.0
    ensures (m * v) / m == v
  {
  }

  // ---------------------------------------------------------------------
  // subtract_background
  // ---------------------------------------------------------------------

  /** np.clip of one value. */
  function Clip(x: real, lo: real, hi: real): (r: real)
    requires lo <= hi
    ensures lo <= r <= hi
    ensures lo <= x <= hi ==> r == x
    ensures x < lo ==> r == lo
    ensures x > hi ==> r == hi
  {
    if x < lo then lo else if x > hi then hi else x
  }

  /**
   * One channel value after subtraction: the difference shifted to 128 when
   * normalising, then clipped to [0, 255] and truncated by astype(uint8).
   */
  function SubtractPixel(p: byte, b: real, normalize: bool): (r: byte)
    ensures var x := if normalize then p as real - b + 128.0 else p as real - b;
      && (x <= 0.0 ==> r == 0)
      && (x >= 255.0 ==> r == 255)
      && (0.0 <= x <= 255.0 ==> r as real <= x < r as real + 1.0)
  {
    var x := if normalize then p as real - b + 128.0 else p as real - b;
    var c := Clip(x, 0.0, 255.0);
    TruncTowardZero(c);
    Trunc(c) as byte
  }

  /** A pixel equal to the background maps to mid grey when normalising and to black otherwise. */
  lemma UnchangedPixel(p: byte)
    ensures SubtractPixel(p, p as real, true) == 128
    ensures SubtractPixel(p, p as real, false) == 0
  {
  }

  /** Without normalisation, every pixel no brighter than the background maps to black. */
  lemma DarkerPixel(p: byte, b: real)
    requires p as real <= b
    ensures SubtractPixel(p, b, false) == 0
  {
  }

  /** The subtraction is monotone: a brighter pixel never maps to a darker value. */
  lemma SubtractPixelMonotone(p: byte, q: byte, b: real, normalize: bool)
    requires p <= q
    ensures SubtractPixel(p, b, normalize) <= SubtractPixel(q, b, normalize)
  {
    var x := if normalize then p as real - b + 128.0 else p as real - b;
    var y := if normalize then q as real - b + 128.0 else q as real - b;
    assert x <= y;
    var cx := Clip(x, 0.0, 255.0);
    var cy := Clip(y, 0.0, 255.0);
    assert cx <= cy;
    TruncTowardZero(cx);
    TruncTowardZero(cy);
  }

  /** One frame after subtraction: the pixel mapping on every channel. */
  function SubtractFrame(frame: seq<byte>, bg: seq<real>, normalize: bool): (r: seq<byte>)
    requires |frame| == |bg|
    ensures |r| == |frame|
  {
    seq(|frame|, i requires 0 <= i < |frame| => SubtractPixel(frame[i], bg[i], normalize))
  }

  /** Subtracting the mean of a static clip turns each of its frames uniformly mid grey. */
  lemma StaticClipIsGrey(frames: seq<seq<byte>>, f: seq<byte>)
    requires |frames| > 0 && forall k :: 0 <= k < |frames| ==> frames[k] == f
    ensures AverageBackground(frames, |f|).Some?
    ensures forall i :: 0 <= i < |f| ==> SubtractFrame(f, AverageBackground(frames, |f|).value, true)[i] == 128
  {
    StaticBackground(frames, f);
    var bg := AverageBackground(frames, |f|).value;
    forall i | 0 <= i < |f| ensures SubtractFrame(f, bg, true)[i] == 128 {
      UnchangedPixel(f[i]);
    }
  }

  /** The loop of subtract_background: one output frame per input frame, in order. */
  method SubtractBackground(frames: seq<seq<byte>>, bg: seq<real>, normalize: bool) returns (subtracted: seq<seq<byte>>)
    requires forall k :: 0 <= k < |frames| ==> |frames[k]| == |bg|
    ensures |subtracted| == |frames|
    ensures forall k :: 0 <= k < |frames| ==> subtracted[k] == SubtractFrame(frames[k], bg, normalize)
  {
    subtracted := [];
    for i := 0 to |frames|
      invariant |subtracted| == i
      invariant forall k :: 0 <= k < i ==> subtracted[k] == SubtractFrame(frames[k], bg, normalize)
    {
      var out := SubtractFrame(frames[i], bg, normalize);
      subtracted := subtracted + [out];
    }
  }
}
