/**
 * video_prescreen.py: the evenly spaced sample indices, the three
 * six-label classification ladders, and the sampling loop of
 * prescreen_video. The per-frame brightness and focus scores come from
 * image operations and are inputs here; the combined quality score, which
 * raises a float to a fractional power, is not part of this model.
 */
module VideoPrescreen {

  import opened Wrappers
  import opened Sampling

  /** The message of Python's ZeroDivisionError for a float division. */
  const FloatZeroDivision := "division by zero"

  // ---------------------------------------------------------------------
  // sample_frame_indices
  // ---------------------------------------------------------------------

  /** list(range(n)), which is empty for n <= 0. */
  function Range(n: int): (r: seq<int>)
    ensures |r| == if n <= 0 then 0 else n
    ensures forall k :: 0 <= k < |r| ==> r[k] == k
  {
    if n <= 0 then [] else seq(n, i => i)
  }

  /**
   * sample_frame_indices: every frame when there are no more frames than
   * samples, otherwise int(i * step) for i below num_samples, with step the
   * true quotient total_frames / num_samples (exact here). A zero sample
   * count with a non-empty video divides by zero.
   */
  function SampleFrameIndices(totalFrames: int, numSamples: int): (r: Result<seq<int>, string>)
    ensures r.Failure? <==> numSamples == 0 && totalFrames > 0
    ensures totalFrames <= numSamples ==> r == Success(Range(totalFrames))
    ensures r.Success? && totalFrames > numSamples ==> |r.value| == if numSamples < 0 then 0 else numSamples
  {
    if totalFrames <= numSamples then Success(Range(totalFrames))
    else if numSamples == 0 then Failure(FloatZeroDivision)
    else if numSamples < 0 then Success([])
    else Success(Spread(totalFrames, numSamples))
  }

  /** int(i * step) for i below n, with step = total / n. */
  function Spread(totalFrames: int, numSamples: nat): (r: seq<int>)
    requires numSamples > 0
    ensures |r| == numSamples
  {
    seq(numSamples, i => SpreadAt(totalFrames, numSamples, i))
  }

  /** int(i * step), with step = total / n. */
  function SpreadAt(totalFrames: int, numSamples: nat, i: int): int
    requires numSamples > 0
  {
    Trunc(i as real * (totalFrames as real / numSamples as real))
  }

  /** int(k * total / n) is the integer quotient of k * total by n. */
  lemma SpreadEntry(k: nat, totalFrames: int, numSamples: int)
    requires 0 < numSamples < totalFrames
    ensures SpreadAt(totalFrames, numSamples, k) == (k * totalFrames) / numSamples
  {
    var n := numSamples;
    var q := (k * totalFrames) / n;
    var m := (k * totalFrames) % n;
    var x := k as real * (totalFrames as real / n as real);
    assert k * totalFrames == q * n + m && 0 <= m < n;
    assert x == (k * totalFrames) as real / n as real;
    assert x == q as real + m as real / n as real;
    assert 0.0 <= m as real / n as real < 1.0;
  }

  /** A product with a positive factor is strictly monotone in the other factor. */
  lemma MulStrict(a: int, b: int, c: int)
    requires a < b && c > 0
    ensures a * c < b * c
  {
    assert b * c - a * c == (b - a) * c;
  }

  /** A multiple of n no larger than a is bounded by a's quotient by n. */
  lemma DivLowerBound(a: int, c: int, n: int)
    requires n > 0 && c * n <= a
    ensures c <= a / n
  {
    var q := a / n;
    assert c * n < (q + 1) * n;
    assert (c - (q + 1)) * n < 0;
  }

  /** Quotients by n of numbers total apart, total > n, are at least one apart per step. */
  lemma SpreadGrows(j: nat, k: nat, totalFrames: int, numSamples: int)
    requires 0 < numSamples < totalFrames && j < k
    ensures (j * totalFrames) / numSamples < (k * totalFrames) / numSamples
  {
    var n, t, d := numSamples, totalFrames, k - j;
    var qj := (j * t) / n;
    assert qj * n <= j * t;
    MulStrict(n, t, d);
    assert n * d < t * d;
    assert n <= d * n by {
      if 1 < d {
        MulStrict(1, d, n);
      }
    }
    assert k * t == j * t + d * t;
    assert (qj + 1) * n == qj * n + n;
    DivLowerBound(k * t, qj + 1, n);
  }

  /** For k below n, the quotient of k * total by n is below total. */
  lemma SpreadBelow(k: nat, totalFrames: int, numSamples: int)
    requires 0 < numSamples < totalFrames && k < numSamples
    ensures 0 <= (k * totalFrames) / numSamples < totalFrames
  {
    var q := (k * totalFrames) / numSamples;
    MulStrict(k, numSamples, totalFrames);
    assert q * numSamples <= k * totalFrames < numSamples * totalFrames;
    assert (q - totalFrames) * numSamples < 0;
  }

  /** With more frames than samples, entry k is the integer quotient of k * total_frames by num_samples. */
  lemma SpreadQuotients(totalFrames: int, numSamples: int)
    requires 0 < numSamples < totalFrames
    ensures var r := SampleFrameIndices(totalFrames, numSamples);
      && r.Success? && |r.value| == numSamples
      && forall k :: 0 <= k < numSamples ==> r.value[k] == (k * totalFrames) / numSamples
  {
    assert SampleFrameIndices(totalFrames, numSamples) == Success(Spread(totalFrames, numSamples));
    var v := Spread(totalFrames, numSamples);
    forall k | 0 <= k < numSamples ensures v[k] == (k * totalFrames) / numSamples {
      SpreadEntry(k, totalFrames, numSamples);
    }
  }

  /**
   * With more frames than samples, the sample indices are num_samples
   * entries, starting at 0, strictly increasing and all below the frame
   * count.
   */
  lemma SpreadIndices(totalFrames: int, numSamples: int)
    requires 0 < numSamples < totalFrames
    ensures var r := SampleFrameIndices(totalFrames, numSamples);
      && r.Success? && |r.value| == numSamples
      && r.value[0] == 0
      && (forall j, k :: 0 <= j < k < numSamples ==> r.value[j] < r.value[k])
      && (forall k :: 0 <= k < numSamples ==> 0 <= r.value[k] < totalFrames)
  {
    SpreadQuotients(totalFrames, numSamples);
    var v := SampleFrameIndices(totalFrames, numSamples).value;
    forall j, k | 0 <= j < k < numSamples ensures v[j] < v[k] {
      SpreadGrows(j, k, totalFrames, numSamples);
    }
    forall k | 0 <= k < numSamples ensures 0 <= v[k] < totalFrames {
      SpreadBelow(k, totalFrames, numSamples);
    }
  }

  // ---------------------------------------------------------------------
  // The classification ladders
  // ---------------------------------------------------------------------

  /**
   * The band of x among ascending thresholds: the position of the first
   * threshold above x, or the number of thresholds when there is none.
   */
  function Band(x: real, thresholds: seq<real>): (k: nat)
    ensures k <= |thresholds|
    ensures forall i :: 0 <= i < k ==> thresholds[i] <= x
    ensures k < |thresholds| ==> x < thresholds[k]
  {
    if thresholds == [] then 0
    else if x < thresholds[0] then 0
    else 1 + Band(x, thresholds[1..])
  }

  /** A larger value never falls in a lower band. */
  lemma {:induction false} BandMonotone(x: real, y: real, thresholds: seq<real>)
    requires x <= y
    ensures Band(x, thresholds) <= Band(y, thresholds)
  {
    if thresholds != [] && thresholds[0] <= x {
      BandMonotone(x, y, thresholds[1..]);
    }
  }

  /** Between consecutive ascending thresholds k-1 and k, the band is k. */
  lemma BandIs(x: real, thresholds: seq<real>, k: nat)
    requires forall i, j :: 0 <= i < j < |thresholds| ==> thresholds[i] <= thresholds[j]
    requires k <= |thresholds|
    requires 0 < k ==> thresholds[k - 1] <= x
    requires k < |thresholds| ==> x < thresholds[k]
    ensures Band(x, thresholds) == k
  {
  }

  const BrightnessThresholds: seq<real> := [0.20, 0.35, 0.50, 0.65, 0.80]
  const BrightnessLabels: seq<string> := ["very dark", "dark", "dim", "normal", "bright", "very bright"]
  const FocusThresholds: seq<real> := [0.25, 0.40, 0.55, 0.70, 0.85]
  const FocusLabels: seq<string> := ["very soft", "soft", "acceptable", "good", "sharp", "very sharp"]
  const QualityThresholds: seq<real> := [0.15, 0.30, 0.45, 0.60, 0.75]
  const QualityLabels: seq<string> := ["very poor", "poor", "low", "acceptable", "good", "excellent"]

  /** The position of a label in a list of labels, |labels| when it is absent. */
  function Rank(labels: seq<string>, name: string): (k: nat)
    ensures k <= |labels|
    ensures k < |labels| ==> labels[k] == name
    ensures forall i :: 0 <= i < k ==> labels[i] != name
  {
    if labels == [] then 0
    else if labels[0] == name then 0
    else 1 + Rank(labels[1..], name)
  }

  /** In a list of distinct labels, the label at position k ranks k. */
  lemma RankOfDistinct(labels: seq<string>, k: nat)
    requires k < |labels|
    requires forall i, j :: 0 <= i < j < |labels| ==> labels[i] != labels[j]
    ensures Rank(labels, labels[k]) == k
  {
  }

  /** classify_brightness: the label of the band the score falls in. */
  function ClassifyBrightness(b: real): (name: string)
    ensures name == BrightnessLabels[Band(b, BrightnessThresholds)]
  {
    if b < 0.20 then BandIs(b, BrightnessThresholds, 0); "very dark"
    else if b < 0.35 then BandIs(b, BrightnessThresholds, 1); "dark"
    else if b < 0.50 then BandIs(b, BrightnessThresholds, 2); "dim"
    else if b < 0.65 then BandIs(b, BrightnessThresholds, 3); "normal"
    else if b < 0.80 then BandIs(b, BrightnessThresholds, 4); "bright"
    else BandIs(b, BrightnessThresholds, 5); "very bright"
  }

  /** classify_focus: the label of the band the score falls in. */
  function ClassifyFocus(f: real): (name: string)
    ensures name == FocusLabels[Band(f, FocusThresholds)]
  {
    if f < 0.25 then BandIs(f, FocusThresholds, 0); "very soft"
    else if f < 0.40 then BandIs(f, FocusThresholds, 1); "soft"
    else if f < 0.55 then BandIs(f, FocusThresholds, 2); "acceptable"
    else if f < 0.70 then BandIs(f, FocusThresholds, 3); "good"
    else if f < 0.85 then BandIs(f, FocusThresholds, 4); "sharp"
    else BandIs(f, FocusThresholds, 5); "very sharp"
  }

  /** classify_quality: the label of the band the score falls in. */
  function ClassifyQuality(q: real): (name: string)
    ensures name == QualityLabels[Band(q, QualityThresholds)]
  {
    if q < 0.15 then BandIs(q, QualityThresholds, 0); "very poor"
    else if q < 0.30 then BandIs(q, QualityThresholds, 1); "poor"
    else if q < 0.45 then BandIs(q, QualityThresholds, 2); "low"
    else if q < 0.60 then BandIs(q, QualityThresholds, 3); "acceptable"
    else if q < 0.75 then BandIs(q, QualityThresholds, 4); "good"
    else BandIs(q, QualityThresholds, 5); "excellent"
  }

  /** Each classifier returns one of its six labels, and a higher score never gets a lower label. */
  lemma BrightnessLadder(a: real, b: real)
    requires a <= b
    ensures ClassifyBrightness(a) in BrightnessLabels
    ensures Rank(BrightnessLabels, ClassifyBrightness(a)) <= Rank(BrightnessLabels, ClassifyBrightness(b))
  {
    BandMonotone(a, b, BrightnessThresholds);
    RankOfDistinct(BrightnessLabels, Band(a, BrightnessThresholds));
    RankOfDistinct(BrightnessLabels, Band(b, BrightnessThresholds));
  }

  lemma FocusLadder(a: real, b: real)
    requires a <= b
    ensures ClassifyFocus(a) in FocusLabels
    ensures Rank(FocusLabels, ClassifyFocus(a)) <= Rank(FocusLabels, ClassifyFocus(b))
  {
    BandMonotone(a, b, FocusThresholds);
    RankOfDistinct(FocusLabels, Band(a, FocusThresholds));
    RankOfDistinct(FocusLabels, Band(b, FocusThresholds));
  }

  lemma QualityLadder(a: real, b: real)
    requires a <= b
    ensures ClassifyQuality(a) in QualityLabels
    ensures Rank(QualityLabels, ClassifyQuality(a)) <= Rank(QualityLabels, ClassifyQuality(b))
  {
    BandMonotone(a, b, QualityThresholds);
    RankOfDistinct(QualityLabels, Band(a, QualityThresholds));
    RankOfDistinct(QualityLabels, Band(b, QualityThresholds));
  }

  // ---------------------------------------------------------------------
  // prescreen_video
  // ---------------------------------------------------------------------

  /** The normalised brightness and focus scores of one frame that could be read. */
  datatype Sample = Sample(brightness: real, focus: real)

  /** Seeking to frame i and reading it: frames past the end cannot be read. */
  function ReadAt(video: seq<Option<Sample>>, i: int): Option<Sample>
  {
    if 0 <= i < |video| then video[i] else None
  }

  /** The samples of the frames at idx that could be read, in order. */
  function ReadSamples(video: seq<Option<Sample>>, idx: seq<int>): (r: seq<Sample>)
    ensures |r| <= |idx|
  {
    if idx == [] then []
    else
      var rest := ReadSamples(video, idx[..|idx| - 1]);
      match ReadAt(video, idx[|idx| - 1])
      case Some(s) => rest + [s]
      case None => rest
  }

  /** The indices at idx whose frame could be read, in order. */
  function ReadIndices(video: seq<Option<Sample>>, idx: seq<int>): (r: seq<int>)
    ensures |r| <= |idx|
  {
    if idx == [] then []
    else
      var rest := ReadIndices(video, idx[..|idx| - 1]);
      if ReadAt(video, idx[|idx| - 1]).Some? then rest + [idx[|idx| - 1]] else rest
  }

  /** The read indices are exactly the positions the samples came from. */
  lemma {:induction false} ReadIndicesMatch(video: seq<Option<Sample>>, idx: seq<int>)
    ensures |ReadIndices(video, idx)| == |ReadSamples(video, idx)|
    ensures forall k :: 0 <= k < |ReadIndices(video, idx)| ==>
      ReadAt(video, ReadIndices(video, idx)[k]) == Some(ReadSamples(video, idx)[k])
  {
    if idx != [] {
      ReadIndicesMatch(video, idx[..|idx| - 1]);
    }
  }

  /** When every sampled frame can be read, the samples are those frames. */
  lemma {:induction false} AllReadable(video: seq<Option<Sample>>, idx: seq<int>)
    requires forall k :: 0 <= k < |idx| ==> ReadAt(video, idx[k]).Some?
    ensures ReadIndices(video, idx) == idx
    ensures |ReadSamples(video, idx)| == |idx|
  {
    if idx != [] {
      var init := idx[..|idx| - 1];
      AllReadable(video, init);
      assert init + [idx[|idx| - 1]] == idx;
    }
  }

  function Sum(xs: seq<real>): real
  {
    if xs == [] then 0.0 else Sum(xs[..|xs| - 1]) + xs[|xs| - 1]
  }

  /** The sum of scores within [lo, hi] lies between n lo and n hi. */
  lemma {:induction false} SumBounds(xs: seq<real>, lo: real, hi: real)
    requires forall k :: 0 <= k < |xs| ==> lo <= xs[k] <= hi
    ensures |xs| as real * lo <= Sum(xs) <= |xs| as real * hi
  {
    if xs != [] {
      SumBounds(xs[..|xs| - 1], lo, hi);
    }
  }

  /** np.mean of a non-empty list of scores. */
  function Mean(xs: seq<real>): (m: real)
    requires |xs| > 0
  {
    Sum(xs) / |xs| as real
  }

  /** The mean of scores within [lo, hi] is within [lo, hi]. */
  lemma MeanBounds(xs: seq<real>, lo: real, hi: real)
    requires |xs| > 0
    requires forall k :: 0 <= k < |xs| ==> lo <= xs[k] <= hi
    ensures lo <= Mean(xs) <= hi
  {
    SumBounds(xs, lo, hi);
    var n := |xs| as real;
    assert Mean(xs) * n == Sum(xs);
  }

  function Brightnesses(samples: seq<Sample>): (r: seq<real>)
    ensures |r| == |samples| && forall k :: 0 <= k < |r| ==> r[k] == samples[k].brightness
  {
    seq(|samples|, k requires 0 <= k < |samples| => samples[k].brightness)
  }

  function Focuses(samples: seq<Sample>): (r: seq<real>)
    ensures |r| == |samples| && forall k :: 0 <= k < |r| ==> r[k] == samples[k].focus
  {
    seq(|samples|, k requires 0 <= k < |samples| => samples[k].focus)
  }

  /** The part of prescreen_video's success report that is modelled. */
  datatype Report = Report(
    numSamples: nat,
    requestedSamples: int,
    frameIndices: seq<int>,
    brightnessScores: seq<real>,
    focusScores: seq<real>,
    avgBrightness: real,
    avgFocus: real,
    brightnessClass: string,
    focusClass: string)

  /**
   * prescreen_video: an unopened video and a video reporting no frames fail
   * before any sampling; otherwise the sample indices are visited in order,
   * unreadable frames are skipped, and the run fails when none could be
   * read. The reported frame indices are the first num_samples sample
   * indices.
   */
  method Prescreen(isOpen: bool, totalFrames: int, numSamples: int, video: seq<Option<Sample>>)
    returns (r: Result<Report, string>)
    ensures !isOpen ==> r.Failure?
    ensures isOpen && totalFrames == 0 ==> r == Failure("Video has no frames")
    ensures isOpen && totalFrames != 0 && SampleFrameIndices(totalFrames, numSamples).Failure? ==>
      r == Failure(SampleFrameIndices(totalFrames, numSamples).error)
    ensures isOpen && totalFrames != 0 && SampleFrameIndices(totalFrames, numSamples).Success? ==>
      var idx := SampleFrameIndices(totalFrames, numSamples).value;
      var samples := ReadSamples(video, idx);
      && (samples == [] ==> r == Failure("Could not read any frames"))
      && (samples != [] ==>
        && r.Success?
        && r.value.numSamples == |samples|
        && r.value.requestedSamples == numSamples
        && r.value.frameIndices == idx[..|samples|]
        && r.value.brightnessScores == Brightnesses(samples)
        && r.value.focusScores == Focuses(samples)
        && r.value.avgBrightness == Mean(Brightnesses(samples))
        && r.value.avgFocus == Mean(Focuses(samples))
        && r.value.brightnessClass == ClassifyBrightness(r.value.avgBrightness)
        && r.value.focusClass == ClassifyFocus(r.value.avgFocus))
  {
    if !isOpen {
      return Failure("Could not open video");
    }
    if totalFrames == 0 {
      return Failure("Video has no frames");
    }
    var sampled := SampleFrameIndices(totalFrames, numSamples);
    if sampled.Failure? {
      return Failure(sampled.error);
    }
    var idx := sampled.value;
    var samples: seq<Sample> := [];
    for j := 0 to |idx|
      invariant samples == ReadSamples(video, idx[..j])
    {
      assert idx[..j + 1][..j] == idx[..j];
      var frame := ReadAt(video, idx[j]);
      if frame.Some? {
        samples := samples + [frame.value];
      }
    }
    assert idx[..|idx|] == idx;
    if |samples| == 0 {
      return Failure("Could not read any frames");
    }
    var bs := Brightnesses(samples);
    var fs := Focuses(samples);
    var avgB := Mean(bs);
    var avgF := Mean(fs);
    r := Success(Report(|samples|, numSamples, idx[..|samples|], bs, fs, avgB, avgF,
                        ClassifyBrightness(avgB), ClassifyFocus(avgF)));
  }

  /** Reported and read indices agree when every sampled frame can be read. */
  lemma ReportedIndicesWhenAllRead(video: seq<Option<Sample>>, idx: seq<int>)
    requires forall k :: 0 <= k < |idx| ==> ReadAt(video, idx[k]).Some?
    ensures idx[..|ReadSamples(video, idx)|] == ReadIndices(video, idx)
  {
    AllReadable(video, idx);
  }

  /**
   * When an early sampled frame cannot be read, the reported indices are not
   * the frames the scores came from: sampling 2 of 20 frames visits 0 and
   * 10; with frame 0 unreadable the scores come from frame 10 alone, but the
   * report names frame 0.
   */
  lemma ReportedIndicesMislabel()
    ensures var video := [None] + seq(19, i => Some(Sample(0.5, 0.5)));
      var idx := SampleFrameIndices(20, 2).value;
      && idx == [0, 10]
      && idx[..|ReadSamples(video, idx)|] == [0]
      && ReadIndices(video, idx) == [10]
  {
    var video := [None] + seq(19, i => Some(Sample(0.5, 0.5)));
    var idx := SampleFrameIndices(20, 2).value;
    SpreadIndices(20, 2);
    assert idx == [0, 10];
    assert idx[..1] == [0];
    assert ReadAt(video, 0) == None;
    assert ReadAt(video, 10).Some?;
    assert ReadIndices(video, idx[..1]) == [];
    assert ReadSamples(video, idx[..1]) == [];
  }
}
