/**
 * Per-frame detection of benthic_activity_detection_v4.py: the shape filter
 * applied to connected components (extract_blobs_from_binary), the
 * shadow-reflection coupler (find_coupled_blobs) and the assembly of one
 * frame's detections with duplicate suppression (detect_blobs).
 *
 * The image operations (thresholds, morphology, labelling, contour tracing)
 * are outside the model: a frame arrives as the three lists of connected
 * components that the dark, the bright and the standard segmentation produce.
 */
module Blobs {

  import opened Wrappers
  import opened GreedyMatch

  datatype Point = Point(x: real, y: real)

  /** (x, y, width, height), as the source's bbox tuples. */
  datatype BBox = BBox(x: int, y: int, w: int, h: int)

  /** The source's blob_type strings 'dark', 'bright', 'standard', 'coupled'. */
  datatype BlobKind = Dark | Bright | Standard | Coupled

  /** A single-frame detection; coupledWith is the bright index of a coupled blob. */
  datatype Blob = Blob(
    frameIdx: int,
    bbox: BBox,
    centroid: Point,
    area: int,
    circularity: real,
    aspectRatio: real,
    confidence: real,
    kind: BlobKind,
    coupledWith: Option<nat>)

  datatype DetectionParams = DetectionParams(
    threshold: int,
    darkThreshold: int,
    brightThreshold: int,
    minArea: int,
    maxArea: int,
    minCircularity: real,
    maxAspectRatio: real,
    morphKernelSize: int,
    couplingDistance: real,
    requireCoupling: bool,
    couplingBoost: real)

  /** The dataclass defaults of DetectionParams in the v4 script. */
  const DefaultDetectionParams := DetectionParams(30, 18, 40, 75, 2000, 0.3, 3.0, 5, 100.0, false, 1.3)

  /**
   * One labelled component: its stats row (area, left, top, width, height),
   * its centroid, and the perimeter of its first external contour, None when
   * no contour was found.
   */
  datatype Component = Component(
    area: int,
    left: int,
    top: int,
    width: nat,
    height: nat,
    centroid: Point,
    perimeter: Option<real>)

  /** One frame's components from the dark, bright and standard segmentations. */
  datatype FrameComponents = FrameComponents(
    dark: seq<Component>,
    bright: seq<Component>,
    standard: seq<Component>)

  /** Squared Euclidean distance between two centroids. */
  function SqDist(p: Point, q: Point): (d2: real)
    ensures d2 >= 0.0
  {
    (p.x - q.x) * (p.x - q.x) + (p.y - q.y) * (p.y - q.y)
  }

  lemma SqDistSymmetric(p: Point, q: Point)
    ensures SqDist(p, q) == SqDist(q, p)
  {
  }

  /** np.pi as a decimal. */
  const Pi: real := 3.141592653589793

  /** The 1e-6 added to the shorter side before dividing. */
  const AspectGuard: real := 0.000001

  /** max(w, h) / (min(w, h) + 1e-6). */
  function AspectRatio(w: nat, h: nat): real
  {
    (if w >= h then w else h) as real / ((if w <= h then w else h) as real + AspectGuard)
  }

  /** 4*pi*area / perimeter^2, and 0 when there is no contour or its perimeter is 0. */
  function Circularity(area: int, perimeter: Option<real>): real
  {
    match perimeter
    case Some(len) => if len > 0.0 then 4.0 * Pi * area as real / (len * len) else 0.0
    case None => 0.0
  }

  /** The blob a component becomes once it passes the filters; its confidence is its circularity. */
  function ComponentBlob(c: Component, frameIdx: int, kind: BlobKind): Blob
  {
    var circ := Circularity(c.area, c.perimeter);
    Blob(frameIdx, BBox(c.left, c.top, c.width, c.height), c.centroid, c.area,
         circ, AspectRatio(c.width, c.height), circ, kind, None)
  }

  /** The filter of extract_blobs_from_binary: area range, then aspect-ratio ceiling, then circularity floor. */
  function AcceptComponent(c: Component, frameIdx: int, p: DetectionParams, kind: BlobKind): (r: Option<Blob>)
    ensures r.Some? <==>
      && p.minArea <= c.area <= p.maxArea
      && AspectRatio(c.width, c.height) <= p.maxAspectRatio
      && Circularity(c.area, c.perimeter) >= p.minCircularity
    ensures r.Some? ==> r.value == ComponentBlob(c, frameIdx, kind)
  {
    if c.area < p.minArea || c.area > p.maxArea then None
    else if AspectRatio(c.width, c.height) > p.maxAspectRatio then None
    else if Circularity(c.area, c.perimeter) < p.minCircularity then None
    else Some(ComponentBlob(c, frameIdx, kind))
  }

  /** The blobs of the accepted components, in label order. */
  function Kept(comps: seq<Component>, frameIdx: int, p: DetectionParams, kind: BlobKind): seq<Blob>
  {
    if comps == [] then []
    else
      var n := |comps| - 1;
      var r := AcceptComponent(comps[n], frameIdx, p, kind);
      Kept(comps[..n], frameIdx, p, kind) + (if r.Some? then [r.value] else [])
  }

  /** A blob is kept exactly when some component passes all three filters and becomes it. */
  lemma {:induction false} KeptIff(comps: seq<Component>, frameIdx: int, p: DetectionParams, kind: BlobKind, b: Blob)
    ensures b in Kept(comps, frameIdx, p, kind) <==>
      exists c :: c in comps && AcceptComponent(c, frameIdx, p, kind) == Some(b)
    ensures |Kept(comps, frameIdx, p, kind)| <= |comps|
  {
    if comps != [] {
      var n := |comps| - 1;
      KeptIff(comps[..n], frameIdx, p, kind, b);
      assert comps == comps[..n] + [comps[n]];
    }
  }

  /**
   * Every kept blob lies in the area range, under the aspect-ratio ceiling and
   * over the circularity floor; its confidence is its circularity; it is of the
   * requested kind, belongs to the frame, and is not coupled.
   */
  lemma KeptShape(comps: seq<Component>, frameIdx: int, p: DetectionParams, kind: BlobKind)
    ensures forall b :: b in Kept(comps, frameIdx, p, kind) ==>
      && p.minArea <= b.area <= p.maxArea
      && b.aspectRatio <= p.maxAspectRatio
      && b.circularity >= p.minCircularity
      && b.confidence == b.circularity
      && b.kind == kind && b.frameIdx == frameIdx && b.coupledWith.None?
  {
    forall b | b in Kept(comps, frameIdx, p, kind)
      ensures && p.minArea <= b.area <= p.maxArea
              && b.aspectRatio <= p.maxAspectRatio
              && b.circularity >= p.minCircularity
              && b.confidence == b.circularity
              && b.kind == kind && b.frameIdx == frameIdx && b.coupledWith.None?
    {
      KeptIff(comps, frameIdx, p, kind, b);
    }
  }

  /** A single in-bounds component yields exactly one blob, with its bbox and centroid. */
  lemma SingleComponentKept(c: Component, frameIdx: int, p: DetectionParams, kind: BlobKind)
    requires p.minArea <= c.area <= p.maxArea
    requires AspectRatio(c.width, c.height) <= p.maxAspectRatio
    requires Circularity(c.area, c.perimeter) >= p.minCircularity
    ensures var k := Kept([c], frameIdx, p, kind);
      |k| == 1 && k[0].bbox == BBox(c.left, c.top, c.width, c.height) && k[0].centroid == c.centroid
  {
    assert [c][..0] == [];
  }

  /** A component outside the area range yields no blob, whatever its circularity. */
  lemma OutOfAreaRejected(c: Component, frameIdx: int, p: DetectionParams, kind: BlobKind)
    requires c.area < p.minArea || c.area > p.maxArea
    ensures Kept([c], frameIdx, p, kind) == []
  {
    assert [c][..0] == [];
  }

  /** A component without a contour, or with a zero perimeter, has circularity 0 and is rejected by a positive floor. */
  lemma ZeroPerimeterRejected(c: Component, frameIdx: int, p: DetectionParams, kind: BlobKind)
    requires c.perimeter.None? || c.perimeter.value <= 0.0
    requires p.minCircularity > 0.0
    ensures Circularity(c.area, c.perimeter) == 0.0
    ensures Kept([c], frameIdx, p, kind) == []
  {
    assert [c][..0] == [];
  }

  /** extract_blobs_from_binary over the component list of one segmentation. */
  method ExtractBlobs(comps: seq<Component>, frameIdx: int, p: DetectionParams, kind: BlobKind)
    returns (blobs: seq<Blob>)
    ensures blobs == Kept(comps, frameIdx, p, kind)
    ensures |blobs| <= |comps|
    ensures forall b :: b in blobs ==>
      && p.minArea <= b.area <= p.maxArea
      && b.aspectRatio <= p.maxAspectRatio
      && b.circularity >= p.minCircularity
      && b.confidence == b.circularity
      && b.kind == kind && b.frameIdx == frameIdx
  {
    blobs := [];
    for k := 0 to |comps|
      invariant blobs == Kept(comps[..k], frameIdx, p, kind)
    {
      var c := comps[k];
      assert comps[..k + 1][..k] == comps[..k];
      assert comps[..k + 1][k] == c;
      ghost var r := AcceptComponent(c, frameIdx, p, kind);
      assert Kept(comps[..k + 1], frameIdx, p, kind) == blobs + (if r.Some? then [r.value] else []);
      if c.area < p.minArea || c.area > p.maxArea {
        continue;
      }
      var aspect := AspectRatio(c.width, c.height);
      if aspect > p.maxAspectRatio {
        continue;
      }
      var circularity := Circularity(c.area, c.perimeter);
      if circularity < p.minCircularity {
        continue;
      }
      blobs := blobs + [Blob(frameIdx, BBox(c.left, c.top, c.width, c.height), c.centroid, c.area,
                             circularity, aspect, circularity, kind, None)];
    }
    assert comps[..|comps|] == comps;
    KeptIff(comps, frameIdx, p, kind, Blob(0, BBox(0, 0, 0, 0), Point(0.0, 0.0), 0, 0.0, 0.0, 0.0, kind, None));
    KeptShape(comps, frameIdx, p, kind);
  }

  // ---------------------------------------------------------------------
  // Shadow-reflection coupling
  // ---------------------------------------------------------------------

  /** cdist(rows, cols), squared: entry [i][j] is the squared centroid distance. */
  function CentroidDistances(rows: seq<Blob>, cols: seq<Blob>): (d: seq<seq<real>>)
    ensures |d| == |rows| && IsMatrix(d, |cols|)
    ensures forall i, j :: 0 <= i < |rows| && 0 <= j < |cols| ==>
      d[i][j] == SqDist(rows[i].centroid, cols[j].centroid)
  {
    seq(|rows|, i requires 0 <= i < |rows| =>
      seq(|cols|, j requires 0 <= j < |cols| => SqDist(rows[i].centroid, cols[j].centroid)))
  }

  /** The accepted (dark index, bright index) pairs, in acceptance order. */
  function CouplingPairs(dark: seq<Blob>, bright: seq<Blob>, p: DetectionParams): seq<Cand>
  {
    if |dark| == 0 || |bright| == 0 then []
    else Greedy(SortByKey(Candidates(CentroidDistances(dark, bright), p.couplingDistance)), {}, {})
  }

  /** A coupled blob: the dark blob's geometry, boosted confidence, the bright index. */
  function CoupledBlob(d: Blob, brightIdx: nat, boost: real): Blob
  {
    Blob(d.frameIdx, d.bbox, d.centroid, d.area, d.circularity, d.aspectRatio,
         d.confidence * boost, Coupled, Some(brightIdx))
  }

  /** The coupled blobs of the accepted pairs, in acceptance order. */
  function CoupledList(dark: seq<Blob>, pairs: seq<Cand>, boost: real): seq<Blob>
  {
    if pairs == [] then []
    else
      var n := |pairs| - 1;
      CoupledList(dark, pairs[..n], boost)
        + (if pairs[n].a < |dark| then [CoupledBlob(dark[pairs[n].a], pairs[n].b, boost)] else [])
  }

  /** With every pair indexing the dark list, entry k is the coupled version of pair k's dark blob. */
  lemma {:induction false} CoupledListAt(dark: seq<Blob>, pairs: seq<Cand>, boost: real)
    requires forall c :: c in pairs ==> c.a < |dark|
    ensures |CoupledList(dark, pairs, boost)| == |pairs|
    ensures forall k :: 0 <= k < |pairs| ==>
      CoupledList(dark, pairs, boost)[k] == CoupledBlob(dark[pairs[k].a], pairs[k].b, boost)
  {
    if pairs != [] {
      var n := |pairs| - 1;
      assert forall c :: c in pairs[..n] ==> c in pairs;
      CoupledListAt(dark, pairs[..n], boost);
      assert pairs[n] in pairs;
    }
  }

  /** The elements of s whose index is not claimed, in order. */
  function Unclaimed(s: seq<Blob>, claimed: set<nat>): seq<Blob>
  {
    if s == [] then []
    else
      var n := |s| - 1;
      Unclaimed(s[..n], claimed) + (if n in claimed then [] else [s[n]])
  }

  lemma {:induction false} UnclaimedIgnores(s: seq<Blob>, claimed: set<nat>, x: nat)
    requires x >= |s|
    ensures Unclaimed(s, claimed) == Unclaimed(s, claimed - {x})
  {
    if s != [] {
      UnclaimedIgnores(s[..|s| - 1], claimed, x);
    }
  }

  /** Claiming k indices of s leaves exactly |s| - k elements. */
  lemma {:induction false} UnclaimedCount(s: seq<Blob>, claimed: set<nat>)
    requires forall x :: x in claimed ==> x < |s|
    ensures |Unclaimed(s, claimed)| + |claimed| == |s|
  {
    if s != [] {
      var n := |s| - 1;
      var rest := claimed - {n};
      UnclaimedIgnores(s[..n], claimed, n);
      UnclaimedCount(s[..n], rest);
    }
  }

  lemma {:induction false} UnclaimedNone(s: seq<Blob>)
    ensures Unclaimed(s, {}) == s
  {
    if s != [] {
      UnclaimedNone(s[..|s| - 1]);
    }
  }

  lemma {:induction false} UnclaimedMembers(s: seq<Blob>, claimed: set<nat>, b: Blob)
    ensures b in Unclaimed(s, claimed) ==> b in s
  {
    if s != [] {
      UnclaimedMembers(s[..|s| - 1], claimed, b);
    }
  }

  /**
   * Coupling partitions its inputs: the accepted pairs index the two lists,
   * are within the coupling distance, use no dark and no bright index twice,
   * and leave |dark| - |pairs| dark and |bright| - |pairs| bright blobs
   * unclaimed. With either list empty, nothing is coupled.
   */
  lemma CouplingPartition(dark: seq<Blob>, bright: seq<Blob>, p: DetectionParams)
    ensures var pairs := CouplingPairs(dark, bright, p);
      && OneToOne(pairs)
      && (forall c :: c in pairs ==>
            && c.a < |dark| && c.b < |bright|
            && c.key == SqDist(dark[c.a].centroid, bright[c.b].centroid)
            && WithinLimit(c.key, p.couplingDistance))
      && |pairs| + |Unclaimed(dark, Rows(pairs))| == |dark|
      && |pairs| + |Unclaimed(bright, Cols(pairs))| == |bright|
      && (|dark| == 0 || |bright| == 0 ==>
            pairs == [] && Unclaimed(dark, Rows(pairs)) == dark && Unclaimed(bright, Cols(pairs)) == bright)
  {
    var pairs := CouplingPairs(dark, bright, p);
    if |dark| == 0 || |bright| == 0 {
      assert Rows(pairs) == {} && Cols(pairs) == {};
      UnclaimedNone(dark);
      UnclaimedNone(bright);
    } else {
      var d := CentroidDistances(dark, bright);
      var cands := Candidates(d, p.couplingDistance);
      var sorted := SortByKey(cands);
      SortByKeySortedPerm(cands);
      GreedyMatching(sorted, {}, {});
      forall c | c in pairs
        ensures && c.a < |dark| && c.b < |bright|
                && c.key == SqDist(dark[c.a].centroid, bright[c.b].centroid)
                && WithinLimit(c.key, p.couplingDistance)
      {
        assert c in multiset(sorted);
        CandidatesIff(d, |bright|, p.couplingDistance, c);
      }
      OneToOneCard(pairs);
      UnclaimedCount(dark, Rows(pairs));
      UnclaimedCount(bright, Cols(pairs));
    }
  }

  /**
   * The coupled blobs carry the dark blob's geometry and frame, the kind
   * Coupled and the partner's bright index, with confidence multiplied by the
   * boost.
   */
  lemma CoupledListShape(dark: seq<Blob>, pairs: seq<Cand>, boost: real)
    requires forall c :: c in pairs ==> c.a < |dark|
    ensures var coupled := CoupledList(dark, pairs, boost);
      && |coupled| == |pairs|
      && (forall k :: 0 <= k < |pairs| ==>
            && coupled[k].kind == Coupled && coupled[k].coupledWith == Some(pairs[k].b)
            && coupled[k].centroid == dark[pairs[k].a].centroid
            && coupled[k].bbox == dark[pairs[k].a].bbox
            && coupled[k].frameIdx == dark[pairs[k].a].frameIdx
            && coupled[k].confidence == dark[pairs[k].a].confidence * boost)
  {
    var coupled := CoupledList(dark, pairs, boost);
    CoupledListAt(dark, pairs, boost);
    forall k | 0 <= k < |pairs|
      ensures && coupled[k].kind == Coupled && coupled[k].coupledWith == Some(pairs[k].b)
              && coupled[k].centroid == dark[pairs[k].a].centroid
              && coupled[k].bbox == dark[pairs[k].a].bbox
              && coupled[k].frameIdx == dark[pairs[k].a].frameIdx
              && coupled[k].confidence == dark[pairs[k].a].confidence * boost
    {
      assert pairs[k] in pairs;
      assert coupled[k] == CoupledBlob(dark[pairs[k].a], pairs[k].b, boost);
    }
  }

  /** The uncoupled lists are drawn from their inputs. */
  lemma UncoupledFromInputs(dark: seq<Blob>, bright: seq<Blob>, pairs: seq<Cand>)
    ensures forall b :: b in Unclaimed(dark, Rows(pairs)) ==> b in dark
    ensures forall b :: b in Unclaimed(bright, Cols(pairs)) ==> b in bright
  {
    forall b | b in Unclaimed(dark, Rows(pairs)) ensures b in dark {
      UnclaimedMembers(dark, Rows(pairs), b);
    }
    forall b | b in Unclaimed(bright, Cols(pairs)) ensures b in bright {
      UnclaimedMembers(bright, Cols(pairs), b);
    }
  }

  /** find_coupled_blobs. */
  method FindCoupledBlobs(dark: seq<Blob>, bright: seq<Blob>, p: DetectionParams)
    returns (coupled: seq<Blob>, uncoupledDark: seq<Blob>, uncoupledBright: seq<Blob>)
    ensures coupled == CoupledList(dark, CouplingPairs(dark, bright, p), p.couplingBoost)
    ensures uncoupledDark == Unclaimed(dark, Rows(CouplingPairs(dark, bright, p)))
    ensures uncoupledBright == Unclaimed(bright, Cols(CouplingPairs(dark, bright, p)))
    ensures |coupled| + |uncoupledDark| == |dark|
    ensures |coupled| + |uncoupledBright| == |bright|
    ensures |dark| == 0 || |bright| == 0 ==> coupled == [] && uncoupledDark == dark && uncoupledBright == bright
  {
    CouplingPartition(dark, bright, p);
    ghost var spec := CouplingPairs(dark, bright, p);
    CoupledListAt(dark, spec, p.couplingBoost);
    if |dark| == 0 || |bright| == 0 {
      return [], dark, bright;
    }
    var distances := CentroidDistances(dark, bright);
    var pairs := EnumeratePairs(distances, |bright|, p.couplingDistance);
    pairs := SortByKey(pairs);
    var couplePairs, matchedDark, matchedBright := AcceptGreedily(pairs);
    assert couplePairs == spec;
    coupled := [];
    for k := 0 to |couplePairs|
      invariant coupled == CoupledList(dark, couplePairs[..k], p.couplingBoost)
    {
      assert couplePairs[k] in spec;
      assert couplePairs[..k + 1][..k] == couplePairs[..k];
      var darkBlob := dark[couplePairs[k].a];
      coupled := coupled + [CoupledBlob(darkBlob, couplePairs[k].b, p.couplingBoost)];
    }
    assert couplePairs[..|couplePairs|] == couplePairs;
    uncoupledDark := Unclaimed(dark, matchedDark);
    uncoupledBright := Unclaimed(bright, matchedBright);
  }

  // ---------------------------------------------------------------------
  // Per-frame assembly (detect_blobs)
  // ---------------------------------------------------------------------

  /** The duplicate tolerance of detect_blobs, 20 px, squared. */
  const DuplicateRadiusSq: real := 400.0

  /** The blob's centroid is at least 20 px from every blob of acc. */
  predicate FarFromAll(b: Blob, acc: seq<Blob>)
  {
    forall e :: e in acc ==> SqDist(b.centroid, e.centroid) >= DuplicateRadiusSq
  }

  /** Appends each standard blob, in order, unless it is within 20 px of a blob already output. */
  function AddStandard(acc: seq<Blob>, std: seq<Blob>): seq<Blob>
    decreases |std|
  {
    if std == [] then acc
    else if FarFromAll(std[0], acc) then AddStandard(acc + [std[0]], std[1..])
    else AddStandard(acc, std[1..])
  }

  /**
   * The assembled list starts with what was accepted before the standard
   * blobs; each later entry is a standard blob at least 20 px from every entry
   * before it (earlier standard blobs included); each standard blob left out is
   * within 20 px of some entry.
   */
  lemma {:induction false} AddStandardSpec(acc: seq<Blob>, std: seq<Blob>)
    ensures var out := AddStandard(acc, std);
      && |acc| <= |out| && out[..|acc|] == acc
      && (forall k :: |acc| <= k < |out| ==> out[k] in std && FarFromAll(out[k], out[..k]))
      && (forall s :: s in std ==> s in out || exists e :: e in out && SqDist(s.centroid, e.centroid) < DuplicateRadiusSq)
    decreases |std|
  {
    var out := AddStandard(acc, std);
    if std != [] {
      var s := std[0];
      var next := if FarFromAll(s, acc) then acc + [s] else acc;
      AddStandardSpec(next, std[1..]);
      assert out == AddStandard(next, std[1..]);
      assert out[..|next|] == next;
      assert out[..|acc|] == next[..|acc|];
      forall k | |acc| <= k < |out| ensures out[k] in std && FarFromAll(out[k], out[..k]) {
        if k < |next| {
          assert k == |acc| && out[k] == s && out[..k] == acc;
        } else {
          assert out[k] in std[1..];
        }
      }
      forall t | t in std ensures t in out || exists e :: e in out && SqDist(t.centroid, e.centroid) < DuplicateRadiusSq {
        if t == s {
          if FarFromAll(s, acc) {
            assert out[|acc|] == s;
          } else {
            var e :| e in acc && SqDist(s.centroid, e.centroid) < DuplicateRadiusSq;
            assert e == out[..|acc|][IndexOf(acc, e)];
          }
        } else {
          assert t in std[1..];
        }
      }
    }
  }

  lemma {:induction false} AddStandardMembers(acc: seq<Blob>, std: seq<Blob>, b: Blob)
    ensures b in AddStandard(acc, std) ==> b in acc || b in std
    decreases |std|
  {
    if std != [] {
      var next := if FarFromAll(std[0], acc) then acc + [std[0]] else acc;
      AddStandardMembers(next, std[1..], b);
    }
  }

  lemma {:induction false} CoupledListMembers(dark: seq<Blob>, pairs: seq<Cand>, boost: real, b: Blob)
    ensures b in CoupledList(dark, pairs, boost) ==>
      b.kind == Coupled && exists d :: d in dark && b.frameIdx == d.frameIdx
  {
    if pairs != [] {
      CoupledListMembers(dark, pairs[..|pairs| - 1], boost, b);
    }
  }

  function IndexOf(s: seq<Blob>, e: Blob): (k: nat)
    requires e in s
    ensures k < |s| && s[k] == e
  {
    if s[0] == e then 0 else 1 + IndexOf(s[1..], e)
  }

  /** The blobs detect_blobs returns for one frame, as a function of the three component lists. */
  function DetectedBlobs(fc: FrameComponents, frameIdx: int, p: DetectionParams): seq<Blob>
  {
    var dark := Kept(fc.dark, frameIdx, p, Dark);
    var bright := Kept(fc.bright, frameIdx, p, Bright);
    var pairs := CouplingPairs(dark, bright, p);
    var coupled := CoupledList(dark, pairs, p.couplingBoost);
    var base := coupled + (if p.requireCoupling then [] else Unclaimed(dark, Rows(pairs)));
    AddStandard(base, Kept(fc.standard, frameIdx, p, Standard))
  }

  /** Loop of detect_blobs that drops standard blobs within 20 px of an accepted blob. */
  method AppendStandard(acc: seq<Blob>, std: seq<Blob>) returns (all: seq<Blob>)
    ensures all == AddStandard(acc, std)
  {
    all := acc;
    for k := 0 to |std|
      invariant AddStandard(all, std[k..]) == AddStandard(acc, std)
    {
      var s := std[k];
      assert std[k..] == [s] + std[k + 1..];
      var isDuplicate := false;
      var j := 0;
      while j < |all|
        invariant 0 <= j <= |all|
        invariant !isDuplicate ==> forall i :: 0 <= i < j ==> SqDist(s.centroid, all[i].centroid) >= DuplicateRadiusSq
        invariant isDuplicate ==> !FarFromAll(s, all)
      {
        if SqDist(s.centroid, all[j].centroid) < DuplicateRadiusSq {
          isDuplicate := true;
          break;
        }
        j := j + 1;
      }
      if !isDuplicate {
        all := all + [s];
      }
    }
  }

  /**
   * The frame's blobs are never uncoupled bright blobs, all belong to the
   * frame, contain no uncoupled dark blob when coupling is required, and
   * contain every uncoupled dark blob otherwise.
   */
  lemma DetectedBlobsKinds(fc: FrameComponents, frameIdx: int, p: DetectionParams)
    ensures var blobs := DetectedBlobs(fc, frameIdx, p);
      var dark := Kept(fc.dark, frameIdx, p, Dark);
      var pairs := CouplingPairs(dark, Kept(fc.bright, frameIdx, p, Bright), p);
      && (forall b :: b in blobs ==> b.kind != Bright && b.frameIdx == frameIdx)
      && (p.requireCoupling ==> forall b :: b in blobs ==> b.kind != Dark)
      && (!p.requireCoupling ==> forall b :: b in Unclaimed(dark, Rows(pairs)) ==> b in blobs)
  {
    var dark := Kept(fc.dark, frameIdx, p, Dark);
    var bright := Kept(fc.bright, frameIdx, p, Bright);
    var standard := Kept(fc.standard, frameIdx, p, Standard);
    var pairs := CouplingPairs(dark, bright, p);
    var coupled := CoupledList(dark, pairs, p.couplingBoost);
    var uncoupled := Unclaimed(dark, Rows(pairs));
    var all := coupled + (if p.requireCoupling then [] else uncoupled);
    var blobs := AddStandard(all, standard);
    assert blobs == DetectedBlobs(fc, frameIdx, p);
    KeptShape(fc.dark, frameIdx, p, Dark);
    KeptShape(fc.standard, frameIdx, p, Standard);
    forall b | b in blobs ensures b.kind != Bright && b.frameIdx == frameIdx && (p.requireCoupling ==> b.kind != Dark) {
      AddStandardMembers(all, standard, b);
      CoupledListMembers(dark, pairs, p.couplingBoost, b);
      UnclaimedMembers(dark, Rows(pairs), b);
    }
    if !p.requireCoupling {
      AddStandardSpec(all, standard);
      forall b | b in uncoupled ensures b in blobs {
        var k := IndexOf(uncoupled, b);
        assert blobs[..|all|][|coupled| + k] == b;
      }
    }
  }

  /**
   * detect_blobs over one frame's components: coupled blobs first, then the
   * uncoupled dark blobs unless coupling is required, then the standard blobs
   * that are not duplicates.
   */
  method DetectBlobs(fc: FrameComponents, frameIdx: int, p: DetectionParams) returns (blobs: seq<Blob>)
    ensures blobs == DetectedBlobs(fc, frameIdx, p)
  {
    var dark := ExtractBlobs(fc.dark, frameIdx, p, Dark);
    var bright := ExtractBlobs(fc.bright, frameIdx, p, Bright);
    var coupled, uncoupledDark, uncoupledBright := FindCoupledBlobs(dark, bright, p);
    ghost var pairs := CouplingPairs(dark, bright, p);
    var all := coupled;
    if !p.requireCoupling {
      all := all + uncoupledDark;
    } else {
      assert all == coupled + [];
    }
    var standard := ExtractBlobs(fc.standard, frameIdx, p, Standard);
    blobs := AppendStandard(all, standard);
  }
}
