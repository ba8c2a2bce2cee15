/**
 * motion_analysis.py: the tally part of detect_organisms (size filter,
 * per-frame counts, sizes and centroids, the size distribution) and the
 * row split of compute_activity_heatmap's zone analysis. Connected
 * components come in as records; component 0 of each frame is the
 * background, as connectedComponentsWithStats reports it.
 */
module MotionAnalysis {

  import opened Wrappers
  import opened Sampling

  /** One connected component: its pixel area and its centroid. */
  datatype Component = Component(area: int, centroid: (real, real))

  // ---------------------------------------------------------------------
  // detect_organisms
  // ---------------------------------------------------------------------

  predicate InSizeRange(size: int, minSize: int, maxSize: int)
  {
    minSize <= size <= maxSize
  }

  /** The components of a frame after the background whose area is in range, in label order. */
  function Kept(comps: seq<Component>, minSize: int, maxSize: int): (r: seq<Component>)
    ensures |r| <= |comps|
    ensures forall k :: 0 <= k < |r| ==> InSizeRange(r[k].area, minSize, maxSize)
    ensures forall c :: c in r ==> |comps| > 0 && c in comps[1..]
  {
    if |comps| <= 1 then []
    else
      var init := comps[..|comps| - 1];
      var c := comps[|comps| - 1];
      assert init[1..] == comps[1..|comps| - 1];
      var rest := Kept(init, minSize, maxSize);
      if InSizeRange(c.area, minSize, maxSize) then rest + [c] else rest
  }

  /** A non-background component is kept exactly when its area is in range. */
  lemma {:induction false} KeptIff(comps: seq<Component>, minSize: int, maxSize: int, c: Component)
    ensures c in Kept(comps, minSize, maxSize) <==> |comps| > 0 && c in comps[1..] && InSizeRange(c.area, minSize, maxSize)
  {
    if |comps| > 1 {
      var init := comps[..|comps| - 1];
      KeptIff(init, minSize, maxSize, c);
      assert comps[1..] == init[1..] + [comps[|comps| - 1]];
    }
  }

  function Areas(cs: seq<Component>): (r: seq<int>)
    ensures |r| == |cs| && forall k :: 0 <= k < |r| ==> r[k] == cs[k].area
  {
    seq(|cs|, k requires 0 <= k < |cs| => cs[k].area)
  }

  function Centroids(cs: seq<Component>): (r: seq<(real, real)>)
    ensures |r| == |cs| && forall k :: 0 <= k < |r| ==> r[k] == cs[k].centroid
  {
    seq(|cs|, k requires 0 <= k < |cs| => cs[k].centroid)
  }

  /** The inner loop over labels 1 .. num_labels - 1: the sizes and centroids of the kept components. */
  method FrameBlobs(comps: seq<Component>, minSize: int, maxSize: int)
    returns (sizes: seq<int>, centroids: seq<(real, real)>)
    ensures sizes == Areas(Kept(comps, minSize, maxSize))
    ensures centroids == Centroids(Kept(comps, minSize, maxSize))
  {
    sizes, centroids := [], [];
    if comps == [] {
      return;
    }
    var labelIdx := 1;
    while labelIdx < |comps|
      invariant 1 <= labelIdx <= |comps|
      invariant sizes == Areas(Kept(comps[..labelIdx], minSize, maxSize))
      invariant centroids == Centroids(Kept(comps[..labelIdx], minSize, maxSize))
    {
      assert comps[..labelIdx + 1][..labelIdx] == comps[..labelIdx];
      var c := comps[labelIdx];
      if InSizeRange(c.area, minSize, maxSize) {
        sizes := sizes + [c.area];
        centroids := centroids + [c.centroid];
      }
      labelIdx := labelIdx + 1;
    }
    assert comps[..labelIdx] == comps;
  }

  /** The sizes of all kept components, frame after frame. */
  function AllSizes(frames: seq<seq<Component>>, minSize: int, maxSize: int): seq<int>
  {
    if frames == [] then []
    else AllSizes(frames[..|frames| - 1], minSize, maxSize) + Areas(Kept(frames[|frames| - 1], minSize, maxSize))
  }

  /** Every tallied size lies in [min_size, max_size]. */
  lemma {:induction false} AllSizesInRange(frames: seq<seq<Component>>, minSize: int, maxSize: int)
    ensures forall k :: 0 <= k < |AllSizes(frames, minSize, maxSize)| ==>
      InSizeRange(AllSizes(frames, minSize, maxSize)[k], minSize, maxSize)
  {
    if frames != [] {
      AllSizesInRange(frames[..|frames| - 1], minSize, maxSize);
    }
  }

  function Sum(xs: seq<nat>): nat
  {
    if xs == [] then 0 else Sum(xs[..|xs| - 1]) + xs[|xs| - 1]
  }

  /** The per-frame counts. */
  function Counts(frames: seq<seq<Component>>, minSize: int, maxSize: int): (r: seq<nat>)
    ensures |r| == |frames| && forall k :: 0 <= k < |r| ==> r[k] == |Kept(frames[k], minSize, maxSize)|
  {
    seq(|frames|, k requires 0 <= k < |frames| => |Kept(frames[k], minSize, maxSize)|)
  }

  /** The total of the per-frame counts is the number of tallied sizes. */
  lemma {:induction false} TotalIsSizes(frames: seq<seq<Component>>, minSize: int, maxSize: int)
    ensures Sum(Counts(frames, minSize, maxSize)) == |AllSizes(frames, minSize, maxSize)|
  {
    if frames != [] {
      var init := frames[..|frames| - 1];
      TotalIsSizes(init, minSize, maxSize);
      assert Counts(frames, minSize, maxSize)[..|frames| - 1] == Counts(init, minSize, maxSize);
    }
  }

  /** The size distribution of detect_organisms. */
  datatype SizeStats = SizeStats(small: nat, medium: nat, large: nat)

  function CountBelow(sizes: seq<int>, hi: int): (n: nat)
    ensures n <= |sizes|
  {
    if sizes == [] then 0 else CountBelow(sizes[..|sizes| - 1], hi) + if sizes[|sizes| - 1] < hi then 1 else 0
  }

  function CountBetween(sizes: seq<int>, lo: int, hi: int): (n: nat)
    ensures n <= |sizes|
  {
    if sizes == [] then 0 else CountBetween(sizes[..|sizes| - 1], lo, hi) + if lo <= sizes[|sizes| - 1] < hi then 1 else 0
  }

  function CountAtLeast(sizes: seq<int>, lo: int): (n: nat)
    ensures n <= |sizes|
  {
    if sizes == [] then 0 else CountAtLeast(sizes[..|sizes| - 1], lo) + if sizes[|sizes| - 1] >= lo then 1 else 0
  }

  /** small: below 500 px; medium: 500 up to 5000; large: 5000 and above; all zero for no sizes. */
  function SizeDistribution(sizes: seq<int>): SizeStats
  {
    if |sizes| > 0 then SizeStats(CountBelow(sizes, 500), CountBetween(sizes, 500, 5000), CountAtLeast(sizes, 5000))
    else SizeStats(0, 0, 0)
  }

  /** The three buckets partition the sizes. */
  lemma {:induction false} BucketsPartition(sizes: seq<int>)
    ensures var d := SizeDistribution(sizes); d.small + d.medium + d.large == |sizes|
  {
    if sizes != [] {
      var init := sizes[..|sizes| - 1];
      BucketsPartition(init);
      if init != [] {
        assert SizeDistribution(init) == SizeStats(CountBelow(init, 500), CountBetween(init, 500, 5000), CountAtLeast(init, 5000));
      }
    }
  }

  /** The result of detect_organisms that is modelled. */
  datatype Organisms = Organisms(
    blobCounts: seq<nat>,
    blobSizes: seq<int>,
    blobCentroids: seq<seq<(real, real)>>,
    totalDetections: nat,
    avgCount: real,
    maxCount: nat,
    sizeDistribution: SizeStats)

  function MaxOf(xs: seq<nat>): (m: nat)
    requires |xs| > 0
    ensures m in xs && forall k :: 0 <= k < |xs| ==> xs[k] <= m
  {
    if |xs| == 1 then xs[0]
    else
      var m := MaxOf(xs[..|xs| - 1]);
      assert forall k :: 0 <= k < |xs| - 1 ==> xs[..|xs| - 1][k] == xs[k];
      if xs[|xs| - 1] > m then xs[|xs| - 1] else m
  }

  /** The centroid list of every frame. */
  function CentroidLists(frames: seq<seq<Component>>, minSize: int, maxSize: int): (r: seq<seq<(real, real)>>)
    ensures |r| == |frames| && forall k :: 0 <= k < |r| ==> r[k] == Centroids(Kept(frames[k], minSize, maxSize))
  {
    seq(|frames|, k requires 0 <= k < |frames| => Centroids(Kept(frames[k], minSize, maxSize)))
  }

  /**
   * The statistics detect_organisms reports for a non-empty clip: per-frame
   * counts and centroids, every size, their total, mean and peak, and the
   * size distribution.
   */
  function Tally(frames: seq<seq<Component>>, minSize: int, maxSize: int): Organisms
    requires |frames| > 0
  {
    var counts := Counts(frames, minSize, maxSize);
    var sizes := AllSizes(frames, minSize, maxSize);
    var total := Sum(counts);
    Organisms(counts, sizes, CentroidLists(frames, minSize, maxSize), total,
              total as real / |frames| as real, MaxOf(counts), SizeDistribution(sizes))
  }

  /**
   * The reported statistics agree with each other: one count and one
   * centroid list per frame, each count the length of its list, the total
   * the number of sizes and of distribution entries, the peak at least
   * every count, and every size within the filter.
   */
  lemma TallyConsistent(frames: seq<seq<Component>>, minSize: int, maxSize: int)
    requires |frames| > 0
    ensures var t := Tally(frames, minSize, maxSize);
      && |t.blobCounts| == |t.blobCentroids| == |frames|
      && (forall k :: 0 <= k < |frames| ==> t.blobCounts[k] == |t.blobCentroids[k]|)
      && t.totalDetections == |t.blobSizes|
      && t.sizeDistribution.small + t.sizeDistribution.medium + t.sizeDistribution.large == t.totalDetections
      && (forall k :: 0 <= k < |frames| ==> t.blobCounts[k] <= t.maxCount)
      && (forall k :: 0 <= k < |t.blobSizes| ==> InSizeRange(t.blobSizes[k], minSize, maxSize))
  {
    TotalIsSizes(frames, minSize, maxSize);
    BucketsPartition(AllSizes(frames, minSize, maxSize));
    AllSizesInRange(frames, minSize, maxSize);
  }

  /**
   * detect_organisms' tally loop: the statistics of the clip. np.max of
   * the counts of no frames raises.
   */
  method DetectOrganisms(frames: seq<seq<Component>>, minSize: int, maxSize: int)
    returns (r: Result<Organisms, string>)
    ensures r.Failure? <==> frames == []
    ensures r.Success? ==> |frames| > 0 && r.value == Tally(frames, minSize, maxSize)
  {
    var blobCounts: seq<nat> := [];
    var blobSizes: seq<int> := [];
    var blobCentroids: seq<seq<(real, real)>> := [];
    for i := 0 to |frames|
      invariant blobCounts == Counts(frames[..i], minSize, maxSize)
      invariant blobSizes == AllSizes(frames[..i], minSize, maxSize)
      invariant blobCentroids == CentroidLists(frames[..i], minSize, maxSize)
    {
      assert frames[..i + 1][..i] == frames[..i];
      var sizes, centroids := FrameBlobs(frames[i], minSize, maxSize);
      blobCounts := blobCounts + [|sizes|];
      blobSizes := blobSizes + sizes;
      blobCentroids := blobCentroids + [centroids];
    }
    assert frames[..|frames|] == frames;
    if frames == [] {
      return Failure("zero-size array to reduction operation maximum which has no identity");
    }
    var total := Sum(blobCounts);
    r := Success(Organisms(blobCounts, blobSizes, blobCentroids, total,
                           total as real / |frames| as real, MaxOf(blobCounts),
                           SizeDistribution(blobSizes)));
  }

  // ---------------------------------------------------------------------
  // compute_activity_heatmap: zones
  // ---------------------------------------------------------------------

  /** The row ranges [lo, hi) of the top, middle and bottom zones of a heatmap with the given rows. */
  function Zones(rows: nat): (z: ((nat, nat), (nat, nat), (nat, nat)))
    ensures z.0.0 == 0 && z.0.1 == z.1.0 && z.1.1 == z.2.0 && z.2.1 == rows
    ensures z.0.0 <= z.0.1 <= z.1.1 <= z.2.1
  {
    var third := FloorDiv(rows, 3);
    ((0, third), (third, 2 * third), (2 * third, rows))
  }

  function InRange(i: int, range: (nat, nat)): bool
  {
    range.0 <= i < range.1
  }

  /** Every row falls in exactly one zone, and only rows of the heatmap fall in a zone. */
  lemma ZonesPartition(rows: nat, i: int)
    ensures var z := Zones(rows);
      (0 <= i < rows <==> InRange(i, z.0) || InRange(i, z.1) || InRange(i, z.2))
      && !(InRange(i, z.0) && InRange(i, z.1))
      && !(InRange(i, z.1) && InRange(i, z.2))
      && !(InRange(i, z.0) && InRange(i, z.2))
  {
  }

  /** The top and middle zones have rows // 3 rows each, and the bottom takes the remaining rows, up to two more. */
  lemma ZoneSizes(rows: nat)
    ensures var z := Zones(rows);
      && z.0.1 - z.0.0 == z.1.1 - z.1.0 == rows / 3
      && rows / 3 <= z.2.1 - z.2.0 <= rows / 3 + 2
  {
    FloorDivPositive(rows, 3);
  }
}
