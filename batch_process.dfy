/**
 * batch_process_videos.py: the hour label derived from a video file name,
 * and the argument lists handed to the background-subtraction and the
 * benthic-activity scripts. Running the subprocesses is not modelled.
 */
module BatchProcess {

  import opened Wrappers
  import opened PyStrings

  // ---------------------------------------------------------------------
  // extract_time_from_filename
  // ---------------------------------------------------------------------

  const Mp4 := ".mp4"
  const Subtracted := "subtracted"
  /** "_background_subtracted", the tag background subtraction puts on its output names. */
  const BgSuffix := "_background" + "_" + Subtracted

  /**
   * extract_time_from_filename as written: the last '_'-piece of the name,
   * with ".mp4" and "_background_subtracted" replaced away, up to its first
   * '-', followed by ":00". For a string argument nothing raises, so the
   * "Unknown" fallback is never taken.
   */
  function ExtractTimeAsWritten(filename: string): (r: string)
    ensures EndsWith(r, ":00") && r != "Unknown"
    ensures '_' !in r && '-' !in r[..|r| - 3]
  {
    var parts := Split(filename, '_');
    var timeStr := Replace(Replace(Last(parts), Mp4, ""), BgSuffix, "");
    var hour := Split(timeStr, '-')[0];
    ReplaceKeepsOut(Last(parts), Mp4, "", '_');
    ReplaceKeepsOut(Replace(Last(parts), Mp4, ""), BgSuffix, "", '_');
    assert (hour + ":00")[..|hour|] == hour;
    hour + ":00"
  }

  /**
   * The "_background_subtracted" replacement is dead: the last '_'-piece can
   * hold no '_', so the result is the same without it.
   */
  lemma DeadReplacement(filename: string)
    ensures ExtractTimeAsWritten(filename) ==
      Split(Replace(Last(Split(filename, '_')), Mp4, ""), '-')[0] + ":00"
  {
    var piece := Replace(Last(Split(filename, '_')), Mp4, "");
    ReplaceKeepsOut(Last(Split(filename, '_')), Mp4, "", '_');
    OccursHasFirst(piece, BgSuffix);
  }

  /** The hour of a last piece "HH-rest.mp4": the text before its first '-'. */
  lemma HourOfPiece(hh: string, rest: string)
    requires '-' !in hh && '_' !in hh && '_' !in rest && '.' !in hh && '.' !in rest
    ensures Split(Replace(Replace(hh + "-" + rest + Mp4, Mp4, ""), BgSuffix, ""), '-')[0] == hh
  {
    var t := hh + "-" + rest;
    assert '.' !in t;
    assert t + Mp4 == hh + "-" + rest + Mp4;
    ReplaceTrailing(t, Mp4);
    assert '_' !in t;
    OccursHasFirst(t, BgSuffix);
    FirstPiece(t, '-');
    assert t == hh + ['-'] + rest;
    IndexOfPrefix(hh, '-', rest);
  }

  /** A name "prefix_HH-rest.mp4" gets the hour HH. */
  lemma ExtractTimeOfName(prefix: string, hh: string, rest: string)
    requires '-' !in hh && '_' !in hh && '_' !in rest && '.' !in hh && '.' !in rest
    ensures ExtractTimeAsWritten(prefix + "_" + hh + "-" + rest + Mp4) == hh + ":00"
  {
    var piece := hh + "-" + rest + Mp4;
    assert prefix + "_" + hh + "-" + rest + Mp4 == prefix + ['_'] + piece;
    assert '_' !in piece;
    LastPieceAfter(prefix, '_', piece);
    HourOfPiece(hh, rest);
  }

  /** The name of the documentation comment, SUBCAM_ALG_2020-01-26_09-00-40.mp4, gets the hour 09:00. */
  lemma ExtractTimeExample(name: string)
    requires name == "SUBCAM_ALG_2020-01-26" + "_" + "09" + "-" + "00-40" + ".mp4"
    ensures ExtractTimeAsWritten(name) == "09:00"
  {
    ExtractTimeOfName("SUBCAM_ALG_2020-01-26", "09", "00-40");
  }

  /** A name "prefix_piece.mp4", where the piece holds no '_', '-' or '.', gets the label "piece:00". */
  lemma ExtractTimeOfPiece(prefix: string, piece: string)
    requires '_' !in piece && '-' !in piece && '.' !in piece
    ensures ExtractTimeAsWritten(prefix + "_" + piece + Mp4) == piece + ":00"
  {
    var last := piece + Mp4;
    assert prefix + "_" + piece + Mp4 == prefix + ['_'] + last;
    assert '_' !in last;
    LastPieceAfter(prefix, '_', last);
    ReplaceTrailing(piece, Mp4);
    OccursHasFirst(piece, BgSuffix);
    FirstPiece(piece, '-');
    assert piece[..|piece|] == piece;
  }

  /**
   * The names of background-subtracted videos all get the label
   * "subtracted:00", whatever their hour: the last '_'-piece of
   * "..._background_subtracted.mp4" is "subtracted.mp4".
   */
  lemma BackgroundSubtractedMislabelled(base: string)
    ensures ExtractTimeAsWritten(base + BgSuffix + Mp4) == Subtracted + ":00"
  {
    ExtractTimeOfPiece(base + "_background", Subtracted);
    Regroup(base, "_background", "_", Subtracted, Mp4);
  }

  /**
   * extract_time_from_filename as intended: ".mp4" and then
   * "_background_subtracted" are removed from the end of the name before
   * it is split.
   */
  function ExtractTime(filename: string): (r: string)
    ensures EndsWith(r, ":00")
  {
    var stem := StripSuffix(StripSuffix(filename, Mp4), BgSuffix);
    var hour := Split(Last(Split(stem, '_')), '-')[0];
    assert (hour + ":00")[|hour + ":00"| - 3..] == ":00";
    hour + ":00"
  }

  /** A background-subtracted video gets the hour of the video it came from. */
  lemma ExtractTimeIgnoresSuffix(base: string)
    requires !EndsWith(base, BgSuffix)
    ensures ExtractTime(base + BgSuffix + Mp4) == ExtractTime(base + Mp4)
  {
    var name := base + BgSuffix + Mp4;
    assert StripSuffix(name, Mp4) == base + BgSuffix;
    assert StripSuffix(base + BgSuffix, BgSuffix) == base;
    assert StripSuffix(base + Mp4, Mp4) == base;
  }

  /** The corrected parser gives a name "prefix_HH-rest.mp4" the hour HH. */
  lemma ExtractTimeCorrectedOfName(prefix: string, hh: string, rest: string)
    requires '-' !in hh && '_' !in hh && '_' !in rest
    requires !EndsWith(prefix + "_" + hh + "-" + rest, BgSuffix)
    ensures ExtractTime(prefix + "_" + hh + "-" + rest + Mp4) == hh + ":00"
  {
    var base := prefix + "_" + hh + "-" + rest;
    var t := hh + ['-'] + rest;
    assert base + Mp4 == prefix + "_" + hh + "-" + rest + Mp4;
    assert StripSuffix(base + Mp4, Mp4) == base;
    assert base == prefix + ['_'] + t;
    LastPieceAfter(prefix, '_', t);
    FirstPiece(t, '-');
    IndexOfPrefix(hh, '-', rest);
  }

  /**
   * The corrected parser gives 09:00 for SUBCAM_ALG_2020-01-26_09-00-40.mp4
   * and for its background-subtracted output alike.
   */
  lemma ExtractTimeCorrectedExample(base: string)
    requires base == "SUBCAM_ALG_2020-01-26" + "_" + "09" + "-" + "00-40"
    ensures ExtractTime(base + Mp4) == "09:00"
    ensures ExtractTime(base + BgSuffix + Mp4) == "09:00"
  {
    assert !EndsWith(base, BgSuffix) by {
      assert base[|base| - 1] == '0';
      assert BgSuffix[|BgSuffix| - 1] == 'd';
    }
    ExtractTimeCorrectedOfName("SUBCAM_ALG_2020-01-26", "09", "00-40");
    ExtractTimeIgnoresSuffix(base);
  }

  // ---------------------------------------------------------------------
  // str() of an integer
  // ---------------------------------------------------------------------

  function DigitChar(d: nat): char
    requires d < 10
  {
    "0123456789"[d]
  }

  predicate IsDigit(c: char)
  {
    '0' <= c <= '9'
  }

  /** str(n) for n >= 0: its decimal digits, most significant first. */
  function NatToString(n: nat): (r: string)
    ensures |r| > 0 && forall k :: 0 <= k < |r| ==> IsDigit(r[k])
  {
    if n < 10 then [DigitChar(n)] else NatToString(n / 10) + [DigitChar(n % 10)]
  }

  /** str(n): a minus sign before the digits of -n when n is negative. */
  function IntToString(n: int): (r: string)
    ensures |r| > 0
    ensures n >= 0 ==> forall k :: 0 <= k < |r| ==> IsDigit(r[k])
    ensures n < 0 ==> r[0] == '-'
  {
    if n >= 0 then NatToString(n) else "-" + NatToString(-n)
  }

  /** The value of a string of decimal digits. */
  function DigitsValue(s: string): nat
    requires forall k :: 0 <= k < |s| ==> IsDigit(s[k])
  {
    if s == [] then 0
    else
      assert IsDigit(s[|s| - 1]);
      10 * DigitsValue(s[..|s| - 1]) + (s[|s| - 1] as int - '0' as int)
  }

  /** Reading back the digits of str(n) gives n. */
  lemma {:induction false} NatToStringValue(n: nat)
    ensures DigitsValue(NatToString(n)) == n
  {
    var r := NatToString(n);
    if n >= 10 {
      NatToStringValue(n / 10);
      assert r[..|r| - 1] == NatToString(n / 10);
    }
  }

  /** Reading back str(n) of a non-negative n gives n. */
  lemma IntToStringValue(n: int)
    ensures n >= 0 ==> DigitsValue(IntToString(n)) == n
  {
    if n >= 0 {
      NatToStringValue(n);
    }
  }

  // ---------------------------------------------------------------------
  // Command lines
  // ---------------------------------------------------------------------

  /** run_background_subtraction's argument list. */
  function BackgroundSubtractionCommand(videoPath: string, outputDir: string, duration: int, subsample: int): (cmd: seq<string>)
    ensures |cmd| == 10
    ensures cmd[3] == videoPath && cmd[5] == outputDir
    ensures duration >= 0 ==> IntToString(duration) == cmd[7] && DigitsValue(cmd[7]) == duration
    ensures subsample >= 0 ==> IntToString(subsample) == cmd[9] && DigitsValue(cmd[9]) == subsample
  {
    IntToStringValue(duration);
    IntToStringValue(subsample);
    ["python", "cv_scripts/background_subtraction.py",
     "--input", videoPath,
     "--output", outputDir,
     "--duration", IntToString(duration),
     "--subsample", IntToString(subsample)]
  }

  /** The recognised parameter overrides of run_benthic_activity_v4, in the order they are tested. */
  const OverrideFlags: seq<(string, string)> := [
    ("dark_threshold", "--dark-threshold"),
    ("bright_threshold", "--bright-threshold"),
    ("min_area", "--min-area"),
    ("max_area", "--max-area"),
    ("coupling_distance", "--coupling-distance"),
    ("max_distance", "--max-distance"),
    ("max_skip_frames", "--max-skip-frames"),
    ("rest_zone_radius", "--rest-zone-radius"),
    ("min_track_length", "--min-track-length"),
    ("min_displacement", "--min-displacement"),
    ("max_speed", "--max-speed"),
    ("min_speed", "--min-speed")
  ]

  /** The fixed head of the benthic-activity command. */
  function V4Head(videoPath: string, outputDir: string): seq<string>
  {
    ["python", "cv_scripts/benthic_activity_detection_v4.py", "--input", videoPath, "--output", outputDir]
  }

  /** How many flags of the table have their key among the parameters. */
  function CountPresent<V>(params: map<string, V>, flags: seq<(string, string)>): (n: nat)
    ensures n <= |flags|
  {
    if flags == [] then 0
    else CountPresent(params, flags[..|flags| - 1]) + if Last(flags).0 in params then 1 else 0
  }

  /** The flag and stringified value of every table key among the parameters, in table order. */
  function Overrides<V>(params: map<string, V>, flags: seq<(string, string)>, str: V -> string): (r: seq<string>)
    ensures |r| == 2 * CountPresent(params, flags)
  {
    if flags == [] then []
    else
      var (key, flag) := Last(flags);
      Overrides(params, flags[..|flags| - 1], str) + if key in params then [flag, str(params[key])] else []
  }

  /**
   * Only the table keys matter: parameter sets that agree on which table
   * keys they hold and on those keys' strings give the same overrides,
   * whatever else (video_id, run_id, unknown keys) they hold.
   */
  lemma {:induction false} OverridesIgnoreOthers<V>(p: map<string, V>, q: map<string, V>, flags: seq<(string, string)>, str: V -> string)
    requires forall j :: 0 <= j < |flags| ==> (flags[j].0 in p <==> flags[j].0 in q)
    requires forall j :: 0 <= j < |flags| && flags[j].0 in p ==> str(p[flags[j].0]) == str(q[flags[j].0])
    ensures Overrides(p, flags, str) == Overrides(q, flags, str)
  {
    if flags != [] {
      OverridesIgnoreOthers(p, q, flags[..|flags| - 1], str);
    }
  }

  /** With none of the table keys present there are no overrides. */
  lemma {:induction false} NoOverrides<V>(params: map<string, V>, flags: seq<(string, string)>, str: V -> string)
    requires forall j :: 0 <= j < |flags| ==> flags[j].0 !in params
    ensures Overrides(params, flags, str) == []
  {
    if flags != [] {
      NoOverrides(params, flags[..|flags| - 1], str);
    }
  }

  /**
   * A key's flag and value appear right after the overrides of the keys
   * tested before it, so each present key contributes its pair in table order.
   */
  lemma {:induction false} OverrideAt<V>(params: map<string, V>, flags: seq<(string, string)>, j: nat, str: V -> string)
    requires j < |flags| && flags[j].0 in params
    ensures var r := Overrides(params, flags, str);
      var at := 2 * CountPresent(params, flags[..j]);
      at + 1 < |r| && r[at] == flags[j].1 && r[at + 1] == str(params[flags[j].0])
    decreases |flags|
  {
    if j < |flags| - 1 {
      var init := flags[..|flags| - 1];
      assert init[..j] == flags[..j];
      OverrideAt(params, init, j, str);
    } else {
      assert flags[..j] == flags[..|flags| - 1];
    }
  }

  /**
   * run_benthic_activity_v4's argument list: the fixed head, then for each
   * recognised key present in the parameters, in the fixed order, its flag
   * and str(value). A missing or empty parameter dictionary adds nothing.
   */
  method BenthicV4Command<V>(videoPath: string, outputDir: string, params: Option<map<string, V>>, str: V -> string)
    returns (cmd: seq<string>)
    ensures params.None? ==> cmd == V4Head(videoPath, outputDir)
    ensures params.Some? ==> cmd == V4Head(videoPath, outputDir) + Overrides(params.value, OverrideFlags, str)
    ensures |cmd| == 6 + if params.Some? then 2 * CountPresent(params.value, OverrideFlags) else 0
  {
    cmd := V4Head(videoPath, outputDir);
    if params.Some? && |params.value| > 0 {
      var p := params.value;
      for j := 0 to |OverrideFlags|
        invariant cmd == V4Head(videoPath, outputDir) + Overrides(p, OverrideFlags[..j], str)
      {
        assert OverrideFlags[..j + 1][..j] == OverrideFlags[..j];
        var (key, flag) := OverrideFlags[j];
        if key in p {
          cmd := cmd + [flag, str(p[key])];
        }
      }
      assert OverrideFlags[..|OverrideFlags|] == OverrideFlags;
    } else if params.Some? {
      NoOverrides(params.value, OverrideFlags, str);
    }
  }
}
