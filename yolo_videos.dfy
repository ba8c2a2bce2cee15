/**
 * process_videos_yolov8.py: which files of the video directory count as
 * original videos, and the names of the annotated video and detection file
 * written for each. The outputs land in the same directory as the inputs,
 * so a second run lists them too; the filter must keep them out.
 */
module YoloVideos {

  import opened PyStrings

  const Mp4 := ".mp4"
  const BackgroundTag := "_background_subtracted"
  const YoloTag := "_yolov8"
  const OutputDir := "public/videos"
  const DetectionDataDir := "public/motion-analysis-results"

  /** is_original_video: an .mp4 whose name mentions neither processing tag. */
  predicate IsOriginalVideo(filename: string)
  {
    EndsWith(filename, Mp4) && !Occurs(filename, BackgroundTag) && !Occurs(filename, YoloTag)
  }

  /** The filter in terms of slices: an .mp4 name with no slice equal to either tag. */
  lemma IsOriginalVideoIff(filename: string)
    ensures IsOriginalVideo(filename) <==>
      && EndsWith(filename, Mp4)
      && !(exists i :: SliceAt(filename, BackgroundTag, i))
      && !(exists i :: SliceAt(filename, YoloTag, i))
  {
    OccursIff(filename, BackgroundTag);
    OccursIff(filename, YoloTag);
  }

  /** A name that does not end in .mp4 is never an original video. */
  lemma NotMp4Rejected(filename: string)
    requires !EndsWith(filename, Mp4)
    ensures !IsOriginalVideo(filename)
  {
  }

  /** The annotated video's file name: the root of the input name, tagged. */
  function OutputVideoName(filename: string): (r: string)
    ensures EndsWith(r, Mp4)
  {
    var r := SplitExt(filename).0 + YoloTag + Mp4;
    assert r[|r| - |Mp4|..] == Mp4;
    r
  }

  /** The detection file's name: the root of the input name, tagged, as JSON. */
  function OutputJsonName(filename: string): string
  {
    SplitExt(filename).0 + YoloTag + ".json"
  }

  /** os.path.join on POSIX of a directory and a bare file name. */
  function JoinPath(dir: string, name: string): string
  {
    dir + "/" + name
  }

  /**
   * The two output paths main writes for one input: an annotated .mp4 in the
   * video directory that the filter rejects, so a later run does not take it
   * for an original, and a .json file in the detection directory.
   */
  function OutputPaths(filename: string): (r: (string, string))
    ensures |r.0| > |OutputDir| + 1 && r.0[..|OutputDir| + 1] == OutputDir + "/"
    ensures EndsWith(r.0, Mp4) && !IsOriginalVideo(r.0[|OutputDir| + 1..])
    ensures |r.1| > |DetectionDataDir| + 1 && r.1[..|DetectionDataDir| + 1] == DetectionDataDir + "/"
    ensures EndsWith(r.1, ".json")
  {
    var video := OutputVideoName(filename);
    var json := OutputJsonName(filename);
    OutputRejected(filename);
    var r0 := JoinPath(OutputDir, video);
    var r1 := JoinPath(DetectionDataDir, json);
    assert r0[..|OutputDir| + 1] == OutputDir + "/" && r0[|OutputDir| + 1..] == video;
    assert r0[|r0| - |Mp4|..] == video[|video| - |Mp4|..];
    assert r1[..|DetectionDataDir| + 1] == DetectionDataDir + "/";
    assert r1[|r1| - 5..] == ".json";
    (r0, r1)
  }

  /** The root of an original video's name is the name without .mp4, when it has a non-dot character. */
  lemma OriginalRoot(base: string)
    requires exists j :: 0 <= j < |base| && base[j] != '.'
    ensures SplitExt(base + Mp4) == (base, Mp4)
    ensures OutputVideoName(base + Mp4) == base + YoloTag + Mp4
  {
    SplitExtOf(base, Mp4);
  }

  /** Every annotated video the script writes is rejected by the filter. */
  lemma OutputRejected(filename: string)
    ensures !IsOriginalVideo(OutputVideoName(filename))
  {
    OccursIn(SplitExt(filename).0, YoloTag, Mp4);
  }

  /** Every output of background subtraction is rejected by the filter. */
  lemma BackgroundOutputRejected(base: string)
    ensures !IsOriginalVideo(base + BackgroundTag + Mp4)
  {
    OccursIn(base, BackgroundTag, Mp4);
  }

  /** The original videos of a listing, in listing order. */
  function Originals(listing: seq<string>): (r: seq<string>)
    ensures |r| <= |listing|
    ensures forall f :: f in r <==> f in listing && IsOriginalVideo(f)
  {
    if listing == [] then []
    else
      var rest := Originals(listing[..|listing| - 1]);
      var f := listing[|listing| - 1];
      assert listing == listing[..|listing| - 1] + [f];
      if IsOriginalVideo(f) then rest + [f] else rest
  }

  /** Everything appended to a listing that the filter rejects leaves the selection as it was. */
  lemma {:induction false} OriginalsIgnoreRejected(listing: seq<string>, extra: seq<string>)
    requires forall k :: 0 <= k < |extra| ==> !IsOriginalVideo(extra[k])
    ensures Originals(listing + extra) == Originals(listing)
  {
    if extra != [] {
      var init := extra[..|extra| - 1];
      OriginalsIgnoreRejected(listing, init);
      assert (listing + extra)[..|listing + extra| - 1] == listing + init;
      assert (listing + extra)[|listing + extra| - 1] == extra[|extra| - 1];
      assert !IsOriginalVideo(extra[|extra| - 1]);
    } else {
      assert listing + extra == listing;
    }
  }

  /** The annotated video names of a list of inputs. */
  function OutputVideoNames(videos: seq<string>): (r: seq<string>)
    ensures |r| == |videos| && forall k :: 0 <= k < |r| ==> r[k] == OutputVideoName(videos[k])
  {
    seq(|videos|, k requires 0 <= k < |videos| => OutputVideoName(videos[k]))
  }

  /** A second run over the directory with the first run's videos added selects the same inputs. */
  lemma RerunSelectsSameVideos(listing: seq<string>)
    ensures Originals(listing + OutputVideoNames(Originals(listing))) == Originals(listing)
  {
    var outs := OutputVideoNames(Originals(listing));
    forall k | 0 <= k < |outs| ensures !IsOriginalVideo(outs[k]) {
      OutputRejected(Originals(listing)[k]);
    }
    OriginalsIgnoreRejected(listing, outs);
  }

  /** The listing loop of main: the original videos, in listing order. */
  method SelectVideos(listing: seq<string>) returns (videos: seq<string>)
    ensures videos == Originals(listing)
  {
    videos := [];
    for i := 0 to |listing|
      invariant videos == Originals(listing[..i])
    {
      assert listing[..i + 1][..i] == listing[..i];
      if IsOriginalVideo(listing[i]) {
        videos := videos + [listing[i]];
      }
    }
    assert listing[..|listing|] == listing;
  }
}
