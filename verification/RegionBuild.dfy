/**
  From motion boxes to crop regions: containment removal (`dedupe_regions`), the ceiling by fusion
  (`cap_regions`) and their composition (`build_regions`). The promise is coverage: a ceiling may cost
  resolution, never a motion box.
 */
module RegionBuild {
  import opened Numbers
  import Sorting
  import opened Wrappers
  import opened RegionGeometry
  import opened RegionClusters

  // ---------------------------------------------------------------------------------------------
  // dedupe_regions
  // ---------------------------------------------------------------------------------------------

  /** First occurrences, in order. */
  function Unique(regions: seq<Box>): (r: seq<Box>)
    ensures forall b :: b in r <==> b in regions
    ensures |r| <= |regions|
  {
    if regions == [] then []
    else
      var last := regions[|regions| - 1];
      var before := Unique(regions[..|regions| - 1]);
      if last in before then before else before + [last]
  }

  predicate ContainedInOther(unique: seq<Box>, b: Box) {
    exists o :: o in unique && o != b && Inside(o, b)
  }

  function KeepOutermost(unique: seq<Box>, n: nat): (r: seq<Box>)
    requires n <= |unique|
    ensures |r| <= n
  {
    if n == 0 then []
    else
      var before := KeepOutermost(unique, n - 1);
      if ContainedInOther(unique, unique[n - 1]) then before else before + [unique[n - 1]]
  }

  function Outermost(regions: seq<Box>): seq<Box> {
    KeepOutermost(Unique(regions), |Unique(regions)|)
  }

  method DedupeRegions(regions: seq<Box>) returns (kept: seq<Box>)
    ensures kept == Outermost(regions)
  {
    var unique: seq<Box> := [];
    for i := 0 to |regions|
      invariant unique == Unique(regions[..i])
    {
      assert regions[..i + 1][..i] == regions[..i];
      if regions[i] !in unique {
        unique := unique + [regions[i]];
      }
    }
    assert regions[..|regions|] == regions;
    kept := [];
    for i := 0 to |unique|
      invariant kept == KeepOutermost(unique, i)
    {
      if ContainedInOther(unique, unique[i]) {
        continue;
      }
      kept := kept + [unique[i]];
    }
  }

  lemma {:induction false} KeepOutermostExactly(unique: seq<Box>, n: nat, b: Box)
    requires n <= |unique|
    ensures b in KeepOutermost(unique, n) <==> b in unique[..n] && !ContainedInOther(unique, b)
  {
    if n > 0 {
      KeepOutermostExactly(unique, n - 1, b);
      assert unique[..n] == unique[..n - 1] + [unique[n - 1]];
    }
  }

  /** Exactly the regions not inside a different region survive. */
  lemma OutermostExactly(regions: seq<Box>, b: Box)
    ensures b in Outermost(regions) <==> b in regions && forall o | o in regions && Inside(o, b) :: o == b
  {
    var unique := Unique(regions);
    assert unique[..|unique|] == unique;
    KeepOutermostExactly(unique, |unique|, b);
  }

  ghost function StrictlyAround(regions: seq<Box>, r: Box): set<Box> {
    set o | o in regions && o != r && Inside(o, r)
  }

  /** Removing contained regions never uncovers anything. */
  lemma {:induction false} OutermostKeepsCoverage(regions: seq<Box>, r: Box)
    requires r in regions
    ensures Covered(Outermost(regions), r)
    decreases StrictlyAround(regions, r)
  {
    OutermostExactly(regions, r);
    if r !in Outermost(regions) {
      var o :| o in regions && Inside(o, r) && o != r;
      assert StrictlyAround(regions, o) <= StrictlyAround(regions, r);
      assert o in StrictlyAround(regions, r) && o !in StrictlyAround(regions, o);
      OutermostKeepsCoverage(regions, o);
      var k :| k in Outermost(regions) && Inside(k, o);
    }
  }

  // ---------------------------------------------------------------------------------------------
  // cap_regions
  // ---------------------------------------------------------------------------------------------

  function FusedArea(regions: seq<Box>, i: nat, j: nat): nat
    requires i < |regions| && j < |regions|
  {
    Area(UnionBox(regions[i], regions[j]))
  }

  /** Pair order of the two nested loops. */
  predicate Before(i: nat, j: nat, k: nat, l: nat) { i < k || (i == k && j < l) }

  /** Among the pairs before `(a, b)`, `(i, j)` has the smallest union and is the first to have it. */
  predicate CheapestBefore(regions: seq<Box>, i: nat, j: nat, a: nat, b: nat) {
    && i < j < |regions|
    && Before(i, j, a, b)
    && forall k: nat, l: nat | k < l < |regions| && Before(k, l, a, b) ::
      && FusedArea(regions, i, j) <= FusedArea(regions, k, l)
      && (Before(k, l, i, j) ==> FusedArea(regions, i, j) < FusedArea(regions, k, l))
  }

  /** The pair `cap_regions` fuses. */
  predicate Cheapest(regions: seq<Box>, i: nat, j: nat) {
    CheapestBefore(regions, i, j, |regions|, 0)
  }

  lemma CheapestIsUnique(regions: seq<Box>, i: nat, j: nat, k: nat, l: nat)
    requires Cheapest(regions, i, j) && Cheapest(regions, k, l)
    ensures i == k && j == l
  {
    var first, second := FusedArea(regions, i, j), FusedArea(regions, k, l);
    assert first == second;
  }

  /** The rest of the scan, from pair `(a, b)`, holding `(i, j)`. */
  function Scan(regions: seq<Box>, i: nat, j: nat, a: nat, b: nat): (r: (nat, nat))
    requires a < b <= |regions| && i < j < |regions|
    ensures r.0 < r.1 < |regions|
    decreases |regions| - a, |regions| - b
  {
    if b < |regions| then
      if FusedArea(regions, a, b) < FusedArea(regions, i, j)
      then Scan(regions, a, b, a, b + 1)
      else Scan(regions, i, j, a, b + 1)
    else if a + 2 <= |regions| then Scan(regions, i, j, a + 1, a + 2)
    else (i, j)
  }

  lemma {:induction false} ScanFindsCheapest(regions: seq<Box>, i: nat, j: nat, a: nat, b: nat)
    requires a < b <= |regions| && CheapestBefore(regions, i, j, a, b)
    ensures var (k, l) := Scan(regions, i, j, a, b); Cheapest(regions, k, l)
    decreases |regions| - a, |regions| - b
  {
    if b < |regions| {
      if FusedArea(regions, a, b) < FusedArea(regions, i, j) {
        ScanFindsCheapest(regions, a, b, a, b + 1);
      } else {
        ScanFindsCheapest(regions, i, j, a, b + 1);
      }
    } else if a + 2 <= |regions| {
      ScanFindsCheapest(regions, i, j, a + 1, a + 2);
    }
  }

  method CheapestPair(regions: seq<Box>) returns (i: nat, j: nat)
    requires |regions| >= 2
    ensures Cheapest(regions, i, j)
  {
    i, j := 0, 1;
    var best: Option<int> := None;
    for a := 0 to |regions|
      invariant best == None ==> a == 0
      invariant best.Some? ==> CheapestBefore(regions, i, j, a, a + 1) && best.value == FusedArea(regions, i, j)
    {
      for b := a + 1 to |regions|
        invariant best == None ==> a == 0 && b == 1
        invariant best.Some? ==> CheapestBefore(regions, i, j, a, b) && best.value == FusedArea(regions, i, j)
      {
        if best == None || FusedArea(regions, a, b) < best.value {
          best, i, j := Some(FusedArea(regions, a, b)), a, b;
        }
      }
    }
  }

  function Limit(config: RegionConfig): int { Max(1, config.maxRegions) }

  function Without(regions: seq<Box>, i: nat, j: nat): seq<Box>
    requires i < j < |regions|
  {
    regions[..i] + regions[i + 1..j] + regions[j + 1..]
  }

  function FusePair(frame: Frame, regions: seq<Box>, config: RegionConfig, i: nat, j: nat): seq<Box>
    requires i < j < |regions|
  {
    var merged := UnionBox(regions[i], regions[j]);
    Without(regions, i, j) + [CalculateRegion(frame, merged, config.minSize, 1.0)]
  }

  function Fuse(frame: Frame, regions: seq<Box>, config: RegionConfig): (r: seq<Box>)
    requires |regions| >= 2
    ensures |r| == |regions| - 1
  {
    var (i, j) := Scan(regions, 0, 1, 0, 2);
    FusePair(frame, regions, config, i, j)
  }

  const GUARD := 1000

  /** `regions` after the remaining fusions, `guard` of which have been done. */
  function CapFrom(frame: Frame, regions: seq<Box>, config: RegionConfig, guard: nat): seq<Box>
    decreases GUARD - guard
  {
    if |regions| > Limit(config) && guard < GUARD
    then CapFrom(frame, Fuse(frame, regions, config), config, guard + 1)
    else regions
  }

  function Cap(frame: Frame, regions: seq<Box>, config: RegionConfig): seq<Box> {
    CapFrom(frame, regions, config, 0)
  }

  /** The comprehension that keeps every box but the two fused ones. */
  method DropPair(regions: seq<Box>, i: nat, j: nat) returns (kept: seq<Box>)
    requires i < j < |regions|
    ensures kept == Without(regions, i, j)
  {
    kept := [];
    for index := 0 to |regions|
      invariant kept == if index <= i then regions[..index]
                        else if index <= j then regions[..i] + regions[i + 1..index]
                        else regions[..i] + regions[i + 1..j] + regions[j + 1..index]
    {
      if index != i && index != j {
        kept := kept + [regions[index]];
      }
    }
  }

  method CapRegions(frame: Frame, regions: seq<Box>, config: RegionConfig) returns (current: seq<Box>)
    ensures current == Cap(frame, regions, config)
  {
    hide CalculateRegion, UnionBox, Cheapest, Without, Scan;
    current := regions;
    var limit := Max(1, config.maxRegions);
    var guard := 0;
    while |current| > limit && guard < GUARD
      invariant 0 <= guard <= GUARD
      invariant CapFrom(frame, current, config, guard) == Cap(frame, regions, config)
      decreases GUARD - guard
    {
      var i, j := CheapestPair(current);
      var (k, l) := Scan(current, 0, 1, 0, 2);
      ScanFindsCheapest(current, 0, 1, 0, 2);
      CheapestIsUnique(current, i, j, k, l);
      var merged := UnionBox(current[i], current[j]);
      var region := CalculateRegion(frame, merged, config.minSize, 1.0);
      var kept := DropPair(current, i, j);
      guard := guard + 1;
      current := kept + [region];
    }
  }

  predicate AllInFrame(frame: Frame, regions: seq<Box>) {
    forall r | r in regions :: InFrame(frame, r)
  }

  predicate Croppable(frame: Frame) { frame.width >= 4 && frame.height >= 4 }

  /** One fusion replaces two regions by an in-frame region holding both. */
  lemma FuseKeepsCoverage(frame: Frame, regions: seq<Box>, config: RegionConfig, i: nat, j: nat, r: Box)
    requires Croppable(frame) && AllInFrame(frame, regions) && i < j < |regions|
    ensures AllInFrame(frame, FusePair(frame, regions, config, i, j))
    ensures |FusePair(frame, regions, config, i, j)| == |regions| - 1
    ensures r in regions ==> Covered(FusePair(frame, regions, config, i, j), r)
  {
    hide CalculateRegion;
    var merged := UnionBox(regions[i], regions[j]);
    var region := CalculateRegion(frame, merged, config.minSize, 1.0);
    assert regions[i] in regions && regions[j] in regions;
    assert InFrame(frame, merged);
    ClipOfInFrame(merged, frame);
    RegionCoversSource(frame, merged, config.minSize, 1.0);
    RegionInFrameIff(frame, merged, config.minSize, 1.0);
    var fused := FusePair(frame, regions, config, i, j);
    assert fused[|fused| - 1] == region;
    if r in regions {
      var k :| 0 <= k < |regions| && regions[k] == r;
      if k == i || k == j {
        assert region in fused;
      } else {
        var at := if k < i then k else if k < j then k - 1 else k - 2;
        assert fused[at] == r;
        assert r in fused && Inside(r, r);
      }
    }
  }

  lemma FusionStepCovers(frame: Frame, regions: seq<Box>, config: RegionConfig, b: Box)
    requires Croppable(frame) && AllInFrame(frame, regions) && |regions| >= 2
    ensures AllInFrame(frame, Fuse(frame, regions, config))
    ensures |Fuse(frame, regions, config)| == |regions| - 1
    ensures Covered(regions, b) ==> Covered(Fuse(frame, regions, config), b)
  {
    var (i, j) := Scan(regions, 0, 1, 0, 2);
    FuseKeepsCoverage(frame, regions, config, i, j, b);
    if Covered(regions, b) {
      var r :| r in regions && Inside(r, b);
      FuseKeepsCoverage(frame, regions, config, i, j, r);
      var k :| k in FusePair(frame, regions, config, i, j) && Inside(k, r);
    }
  }

  /** Every fusion loses one region, so the size after the guarded loop is known exactly. */
  lemma {:induction false} CapSize(frame: Frame, regions: seq<Box>, config: RegionConfig, guard: nat)
    requires guard <= GUARD
    ensures var limit := if config.maxRegions < 1 then 1 else config.maxRegions;
            |CapFrom(frame, regions, config, guard)| == (if |regions| <= limit then |regions| else Max(limit, |regions| - (1000 - guard)))
    decreases GUARD - guard
  {
    hide Fuse;
    if |regions| > Limit(config) && guard < GUARD {
      CapSize(frame, Fuse(frame, regions, config), config, guard + 1);
    }
  }

  /** The cap loses no coverage and leaves no region outside the frame. */
  lemma {:induction false} CapKeepsCoverage(frame: Frame, regions: seq<Box>, config: RegionConfig, guard: nat, b: Box)
    requires Croppable(frame) && AllInFrame(frame, regions) && guard <= GUARD
    ensures AllInFrame(frame, CapFrom(frame, regions, config, guard))
    ensures Covered(regions, b) ==> Covered(CapFrom(frame, regions, config, guard), b)
    decreases GUARD - guard
  {
    hide Fuse;
    if |regions| > Limit(config) && guard < GUARD {
      FusionStepCovers(frame, regions, config, b);
      CapKeepsCoverage(frame, Fuse(frame, regions, config), config, guard + 1, b);
    }
  }

  // ---------------------------------------------------------------------------------------------
  // Sorting, as Python orders tuples
  // ---------------------------------------------------------------------------------------------

  predicate LexLe(a: Box, b: Box) {
    a.x1 < b.x1 || (a.x1 == b.x1 &&
    (a.y1 < b.y1 || (a.y1 == b.y1 &&
    (a.x2 < b.x2 || (a.x2 == b.x2 && a.y2 <= b.y2)))))
  }

  predicate LexSorted(s: seq<Box>) {
    forall i, j | 0 <= i < j < |s| :: LexLe(s[i], s[j])
  }

  function Sort(s: seq<Box>): (r: seq<Box>)
    ensures |r| == |s|
    ensures forall b :: b in r <==> b in s
  {
    Sorting.SameElements(s, Sorting.Sort(s, LexLe));
    Sorting.Sort(s, LexLe)
  }

  /** The order of the regions is Python's tuple order, over the same regions. */
  lemma SortSorts(s: seq<Box>)
    ensures forall i, j | 0 <= i < j < |s| ::
              var a, b := Sort(s)[i], Sort(s)[j];
              a == b || a.x1 < b.x1 || (a.x1 == b.x1 && (a.y1 < b.y1 || (a.y1 == b.y1 && (a.x2 < b.x2 || (a.x2 == b.x2 && a.y2 < b.y2)))))
    ensures multiset(Sort(s)) == multiset(s)
  {
    Sorting.SortSorts(s, LexLe);
    assert LexSorted(Sort(s));
  }

  // ---------------------------------------------------------------------------------------------
  // build_regions
  // ---------------------------------------------------------------------------------------------

  function Clipped(raws: seq<RawBox>, frame: Frame): (r: seq<Box>)
    ensures |r| <= |raws|
  {
    if raws == [] then []
    else
      var before := Clipped(raws[..|raws| - 1], frame);
      var last := ClipBox(raws[|raws| - 1], frame);
      if last.Some? then before + [last.value] else before
  }

  method ClipBoxes(raws: seq<RawBox>, frame: Frame) returns (valid: seq<Box>)
    ensures valid == Clipped(raws, frame)
  {
    valid := [];
    for i := 0 to |raws|
      invariant valid == Clipped(raws[..i], frame)
    {
      assert raws[..i + 1][..i] == raws[..i];
      var clipped := ClipBox(raws[i], frame);
      if clipped.Some? {
        valid := valid + [clipped.value];
      }
    }
    assert raws[..|raws|] == raws;
  }

  function RegionsOf(frame: Frame, boxes: seq<Box>, clusters: seq<seq<nat>>, config: RegionConfig): (r: seq<Box>)
    requires AllClusters(clusters, |boxes|)
    ensures |r| == |clusters|
  {
    seq(|clusters|, c requires 0 <= c < |clusters| => RegionForCluster(frame, boxes, clusters[c], config))
  }

  function CropsOf(frame: Frame, valid: seq<Box>, config: RegionConfig): seq<Box> {
    if valid == [] then []
    else
      Sort(Cap(frame, Outermost(RegionsOf(frame, valid, Clusters(frame, valid, config), config)), config))
  }

  function Regions(frame: Frame, raws: seq<RawBox>, config: RegionConfig): seq<Box> {
    CropsOf(frame, Clipped(raws, frame), config)
  }

  method BuildRegions(frame: Frame, raws: seq<RawBox>, config: RegionConfig) returns (regions: seq<Box>)
    ensures regions == Regions(frame, raws, config)
  {
    var valid := ClipBoxes(raws, frame);
    if valid == [] {
      return [];
    }
    var clusters := ClusterBoxes(frame, valid, config);
    var kept := DedupeRegions(RegionsOf(frame, valid, clusters, config));
    var capped := CapRegions(frame, kept, config);
    return Sort(capped);
  }

  /** The valid boxes are the in-frame parts of the boxes given, and only those. */
  lemma {:induction false} ClippedExactly(raws: seq<RawBox>, frame: Frame, b: Box)
    ensures b in Clipped(raws, frame) <==> exists raw :: raw in raws && ClipBox(raw, frame) == Some(b)
  {
    if raws != [] {
      var n := |raws| - 1;
      assert raws == raws[..n] + [raws[n]];
      ClippedExactly(raws[..n], frame, b);
    }
  }

  /** In their order, one for each box with a visible part. */
  lemma {:induction false} ClippedInOrder(raws: seq<RawBox>, frame: Frame) returns (at: seq<nat>)
    ensures |at| == |Clipped(raws, frame)| && forall p, q | 0 <= p < q < |at| :: at[p] < at[q]
    ensures forall i: nat :: i in at <==> i < |raws| && ClipBox(raws[i], frame).Some?
    ensures forall p | 0 <= p < |at| :: at[p] < |raws| && ClipBox(raws[at[p]], frame) == Some(Clipped(raws, frame)[p])
  {
    hide ClipBox;
    at := [];
    if raws != [] {
      var n := |raws| - 1;
      at := ClippedInOrder(raws[..n], frame);
      assert forall i: nat :: i in at ==> i < n;
      if ClipBox(raws[n], frame).Some? {
        at := at + [n];
      }
    }
  }

  lemma ClippedInFrame(raws: seq<RawBox>, frame: Frame)
    requires frame.width >= 0 && frame.height >= 0
    ensures AllInFrame(frame, Clipped(raws, frame))
  {
    forall b | b in Clipped(raws, frame)
      ensures InFrame(frame, b)
    {
      ClippedExactly(raws, frame, b);
      var raw :| raw in raws && ClipBox(raw, frame) == Some(b);
      ClipIsIntersection(Rounded(raw), frame, b);
    }
  }

  lemma CoverageThroughSort(s: seq<Box>, b: Box)
    ensures Covered(Sort(s), b) <==> Covered(s, b)
  {
  }

  lemma OutermostCovers(frame: Frame, regions: seq<Box>, b: Box)
    requires AllInFrame(frame, regions)
    ensures AllInFrame(frame, Outermost(regions))
    ensures Covered(regions, b) ==> Covered(Outermost(regions), b)
    ensures |Outermost(regions)| <= |regions|
    ensures regions != [] ==> Outermost(regions) != []
  {
    forall r | r in Outermost(regions)
      ensures InFrame(frame, r)
    {
      OutermostExactly(regions, r);
    }
    OutermostExactly(regions, b);
    if Covered(regions, b) {
      var r :| r in regions && Inside(r, b);
      OutermostKeepsCoverage(regions, r);
      var o :| o in Outermost(regions) && Inside(o, r);
    }
    if regions != [] {
      OutermostKeepsCoverage(regions, regions[0]);
    }
  }

  /** Ceiling, containment removal and sorting together: nothing is uncovered, all crops are in frame. */
  lemma FinishedRegions(frame: Frame, regions: seq<Box>, config: RegionConfig, b: Box)
    requires Croppable(frame) && AllInFrame(frame, regions)
    ensures var done := Sort(Cap(frame, Outermost(regions), config));
            && AllInFrame(frame, done)
            && (Covered(regions, b) ==> Covered(done, b))
            && |done| <= Max(Limit(config), |regions| - GUARD)
            && (regions != [] ==> done != [])
  {
    hide CapFrom, Outermost, InFrame, Inside;
    OutermostCovers(frame, regions, b);
    CapKeepsCoverage(frame, Outermost(regions), config, 0, b);
    CapSize(frame, Outermost(regions), config, 0);
    CoverageThroughSort(Cap(frame, Outermost(regions), config), b);
  }

  lemma ClusterRegionsInFrame(frame: Frame, valid: seq<Box>, config: RegionConfig)
    requires Croppable(frame) && AllInFrame(frame, valid)
    ensures AllInFrame(frame, RegionsOf(frame, valid, Clusters(frame, valid, config), config))
  {
    var clusters := Clusters(frame, valid, config);
    forall c | 0 <= c < |clusters|
      ensures InFrame(frame, RegionForCluster(frame, valid, clusters[c], config))
    {
      RegionInFrameIff(frame, Hull(valid, clusters[c]), config.minSize, config.margin);
    }
  }

  /** Main result for in-frame boxes: every box wholly inside some crop, crops in frame, ceiling respected. */
  lemma CropsCoverBoxes(frame: Frame, valid: seq<Box>, config: RegionConfig, b: Box)
    requires Croppable(frame) && AllInFrame(frame, valid)
    ensures b in valid ==> Covered(CropsOf(frame, valid, config), b)
    ensures AllInFrame(frame, CropsOf(frame, valid, config))
    ensures |CropsOf(frame, valid, config)| <= Max(Limit(config), |valid| - GUARD)
    ensures valid == [] <==> CropsOf(frame, valid, config) == []
  {
    if valid != [] {
      var clusters := Clusters(frame, valid, config);
      var regions := RegionsOf(frame, valid, clusters, config);
      ClusterRegionsInFrame(frame, valid, config);
      ClusteringIsPartition(frame, valid, config, 0);
      if b in valid {
        var x: nat :| x < |valid| && valid[x] == b;
        var c := ClusterRegionsCover(frame, valid, config, x);
        assert regions[c] in regions;
      }
      var c0 := ClusterRegionsCover(frame, valid, config, 0);
      FinishedRegions(frame, regions, config, b);
    }
  }

  /**
    The file's promise: the ceiling is met by fusion, never by discarding. The visible part of every
    motion box is wholly inside one crop, for any number of boxes; the number of crops is within the
    ceiling up to `max_regions + 1000` boxes, the most the guarded loop can bring down.
   */
  lemma BuildRegionsNeverDiscards(frame: Frame, raws: seq<RawBox>, config: RegionConfig, raw: RawBox)
    requires Croppable(frame)
    ensures raw in raws && ClipBox(raw, frame).Some? ==>
              Covered(Regions(frame, raws, config), ClipBox(raw, frame).value)
    ensures AllInFrame(frame, Regions(frame, raws, config))
    ensures var limit := if config.maxRegions < 1 then 1 else config.maxRegions;
            |raws| <= limit + 1000 ==> |Regions(frame, raws, config)| <= limit
  {
    ClippedInFrame(raws, frame);
    var valid := Clipped(raws, frame);
    var b := if ClipBox(raw, frame).Some? then ClipBox(raw, frame).value else FullFrame(frame);
    ClippedExactly(raws, frame, b);
    CropsCoverBoxes(frame, valid, config, b);
  }

  // ---------------------------------------------------------------------------------------------
  // The crops are the smallest that do this
  // ---------------------------------------------------------------------------------------------

  /** The kept regions stand in order of first occurrence, so none twice. */
  lemma {:induction false} UniqueAtFirsts(regions: seq<Box>) returns (at: seq<nat>)
    ensures |at| == |Unique(regions)| && forall p, q | 0 <= p < q < |at| :: at[p] < at[q]
    ensures forall p | 0 <= p < |at| :: FirstAt(regions, at[p], Unique(regions)[p])
  {
    hide FirstAt;
    at := [];
    if regions != [] {
      var n := |regions| - 1;
      at := UniqueAtFirsts(regions[..n]);
      forall p | 0 <= p < |at|
        ensures FirstAt(regions, at[p], Unique(regions[..n])[p]) && at[p] < n
      {
        FirstAtLonger(regions, n, at[p], Unique(regions[..n])[p]);
      }
      if regions[n] !in Unique(regions[..n]) {
        FirstAtEnd(regions);
        at := at + [n];
      }
    }
  }

  lemma FirstAtLonger(regions: seq<Box>, n: nat, k: nat, b: Box)
    requires n <= |regions| && FirstAt(regions[..n], k, b)
    ensures FirstAt(regions, k, b) && k < n
  {
    assert regions[..n][..k] == regions[..k];
  }

  lemma FirstAtEnd(regions: seq<Box>)
    requires regions != [] && regions[|regions| - 1] !in regions[..|regions| - 1]
    ensures FirstAt(regions, |regions| - 1, regions[|regions| - 1])
  {
  }

  predicate FirstAt(regions: seq<Box>, k: nat, b: Box) { k < |regions| && regions[k] == b && b !in regions[..k] }

  lemma {:induction false} KeptAtFirsts(regions: seq<Box>, unique: seq<Box>, at: seq<nat>, n: nat) returns (kept: seq<nat>)
    requires |at| == |unique| && n <= |unique| && forall p, q | 0 <= p < q < |at| :: at[p] < at[q]
    requires forall p | 0 <= p < |at| :: FirstAt(regions, at[p], unique[p])
    ensures |kept| == |KeepOutermost(unique, n)| && forall p, q | 0 <= p < q < |kept| :: kept[p] < kept[q]
    ensures forall p | 0 <= p < |kept| :: FirstAt(regions, kept[p], KeepOutermost(unique, n)[p])
    ensures forall p | 0 <= p < |kept| :: n > 0 && kept[p] <= at[n - 1]
  {
    hide FirstAt, ContainedInOther;
    kept := [];
    if n > 0 {
      kept := KeptAtFirsts(regions, unique, at, n - 1);
      assert n > 1 ==> at[n - 2] < at[n - 1];
      if !ContainedInOther(unique, unique[n - 1]) {
        kept := kept + [at[n - 1]];
      }
    }
  }

  /** Of all pairs the two regions have the smallest common box, and are the first pair that has it. */
  predicate LeastPair(regions: seq<Box>, i: nat, j: nat) {
    && i < j < |regions|
    && forall k: nat, l: nat | k < l < |regions| ::
      && PixelsOf(UnionBox(regions[i], regions[j])) <= PixelsOf(UnionBox(regions[k], regions[l]))
      && (k < i || (k == i && l < j) ==> PixelsOf(UnionBox(regions[i], regions[j])) < PixelsOf(UnionBox(regions[k], regions[l])))
  }

  /** The pair gives way to the crop of its common box, without margin, at the end of the list. */
  ghost predicate FusedAt(frame: Frame, config: RegionConfig, before: seq<Box>, after: seq<Box>, i: nat, j: nat) {
    && LeastPair(before, i, j)
    && |after| == |before| - 1
    && (forall k | 0 <= k < |after| - 1 :: after[k] == before[if k < i then k else if k + 1 < j then k + 1 else k + 2])
    && CropOf(frame, UnionBox(before[i], before[j]), config.minSize, 1.0, after[|after| - 1])
  }

  ghost predicate FusionOf(frame: Frame, config: RegionConfig, before: seq<Box>, after: seq<Box>) {
    exists i: nat, j: nat :: FusedAt(frame, config, before, after, i, j)
  }

  lemma CheapestIsLeast(regions: seq<Box>, i: nat, j: nat)
    requires Cheapest(regions, i, j) && forall r | r in regions :: Nonempty(r)
    ensures LeastPair(regions, i, j)
  {
    forall k: nat, l: nat | k < l < |regions|
      ensures FusedArea(regions, k, l) == PixelsOf(UnionBox(regions[k], regions[l]))
    {
      assert regions[k] in regions && regions[l] in regions;
    }
    hide FusedArea, PixelsOf, UnionBox;
  }

  lemma FuseIsFusion(frame: Frame, regions: seq<Box>, config: RegionConfig)
    requires AllInFrame(frame, regions) && |regions| >= 2
    ensures FusionOf(frame, config, regions, Fuse(frame, regions, config))
  {
    hide CalculateRegion, CropOf, Cheapest, LeastPair, Scan;
    var (i, j) := Scan(regions, 0, 1, 0, 2);
    FirstPair(regions);
    ScanFindsCheapest(regions, 0, 1, 0, 2);
    CheapestIsLeast(regions, i, j);
    var merged := UnionBox(regions[i], regions[j]);
    assert regions[i] in regions && regions[j] in regions;
    CropExactly(frame, merged, config.minSize, 1.0);
    assert FusedAt(frame, config, regions, Fuse(frame, regions, config), i, j);
  }

  lemma FirstPair(regions: seq<Box>)
    requires |regions| >= 2
    ensures CheapestBefore(regions, 0, 1, 0, 2)
  {
  }

  /** The cap is a chain of such fusions, as long as there are too many regions, and at most 1000. */
  lemma {:induction false} CapIsFusions(frame: Frame, regions: seq<Box>, config: RegionConfig, guard: nat) returns (chain: seq<seq<Box>>)
    requires Croppable(frame) && AllInFrame(frame, regions) && guard <= GUARD
    ensures chain != [] && chain[0] == regions && chain[|chain| - 1] == CapFrom(frame, regions, config, guard)
    ensures Fusions(frame, config, chain, 1001 - guard)
    decreases GUARD - guard
  {
    hide Fuse, FusionOf;
    chain := [regions];
    if |regions| > Limit(config) && guard < GUARD {
      FusionStepCovers(frame, regions, config, FullFrame(frame));
      FuseIsFusion(frame, regions, config);
      var rest := CapIsFusions(frame, Fuse(frame, regions, config), config, guard + 1);
      chain := [regions] + rest;
      forall k | 0 <= k < |chain| - 1
        ensures FusionOf(frame, config, chain[k], chain[k + 1]) && |chain[k]| > Max(1, config.maxRegions)
      {
        if k > 0 {
          assert chain[k] == rest[k - 1] && chain[k + 1] == rest[k];
        }
      }
    }
  }

  ghost predicate Fusions(frame: Frame, config: RegionConfig, chain: seq<seq<Box>>, most: nat)
    requires chain != []
  {
    && (forall k | 0 <= k < |chain| - 1 ::
          FusionOf(frame, config, chain[k], chain[k + 1]) && |chain[k]| > Max(1, config.maxRegions))
    && |chain| <= most
    && (|chain| == most || |chain[|chain| - 1]| <= Max(1, config.maxRegions))
  }

  /** `list` is the regions not inside a different one, in order of first occurrence. */
  ghost predicate OutermostOf(regions: seq<Box>, list: seq<Box>) {
    && (forall r :: r in list <==> r in regions && forall o | o in regions && Inside(o, r) :: o == r)
    && exists at: seq<nat> :: InOrderOfFirst(regions, list, at)
  }

  predicate InOrderOfFirst(regions: seq<Box>, list: seq<Box>, at: seq<nat>) {
    && |at| == |list| && (forall p, q | 0 <= p < q < |at| :: at[p] < at[q])
    && forall p | 0 <= p < |at| :: FirstAt(regions, at[p], list[p])
  }

  lemma OutermostInOrder(regions: seq<Box>)
    ensures OutermostOf(regions, Outermost(regions))
  {
    forall r: Box
      ensures r in Outermost(regions) <==> r in regions && forall o | o in regions && Inside(o, r) :: o == r
    {
      OutermostExactly(regions, r);
    }
    var unique := Unique(regions);
    var at := UniqueAtFirsts(regions);
    var kept := KeptAtFirsts(regions, unique, at, |unique|);
    assert InOrderOfFirst(regions, Outermost(regions), kept);
  }

  /** Containment removal, ceiling and sorting: exactly which regions come out, for any number of them. */
  lemma FinishedExactly(frame: Frame, regions: seq<Box>, config: RegionConfig) returns (chain: seq<seq<Box>>)
    requires Croppable(frame) && AllInFrame(frame, regions)
    ensures chain != [] && OutermostOf(regions, chain[0]) && Fusions(frame, config, chain, 1001)
    ensures Sort(Cap(frame, Outermost(regions), config)) == Sort(chain[|chain| - 1])
  {
    hide FusionOf;
    OutermostInOrder(regions);
    OutermostCovers(frame, regions, FullFrame(frame));
    chain := CapIsFusions(frame, Outermost(regions), config, 0);
  }

  /** Without a region too many, what comes out is what went in less the contained ones. */
  lemma FewAreUnfused(frame: Frame, regions: seq<Box>, config: RegionConfig, r: Box)
    requires |regions| <= config.maxRegions || |regions| <= 1
    ensures r in Sort(Cap(frame, Outermost(regions), config)) <==>
            r in regions && forall o | o in regions && Inside(o, r) :: o == r
  {
    OutermostExactly(regions, r);
    OutermostIsFewer(regions);
  }

  lemma OutermostIsFewer(regions: seq<Box>)
    ensures |Outermost(regions)| <= |regions|
  {
  }

  /**
    The crops of a frame exactly: one for each cluster, the crop of its hull with the configured margin, less those
    inside another one, fused from the cheapest pair on while there are too many, and put in order.
   */
  lemma CropsExactly(frame: Frame, valid: seq<Box>, config: RegionConfig) returns (crops: seq<Box>, chain: seq<seq<Box>>)
    requires Croppable(frame) && AllInFrame(frame, valid) && valid != []
    ensures |crops| == |Clusters(frame, valid, config)|
    ensures forall c | 0 <= c < |crops| ::
              CropOf(frame, Hull(valid, Clusters(frame, valid, config)[c]), config.minSize, config.margin, crops[c])
    ensures chain != [] && OutermostOf(crops, chain[0]) && Fusions(frame, config, chain, 1001)
    ensures CropsOf(frame, valid, config) == Sort(chain[|chain| - 1])
  {
    hide CalculateRegion, OutermostOf, Fusions, CropOf, ClustersFrom, Hull;
    var clusters := Clusters(frame, valid, config);
    crops := RegionsOf(frame, valid, clusters, config);
    forall c | 0 <= c < |crops|
      ensures CropOf(frame, Hull(valid, clusters[c]), config.minSize, config.margin, crops[c])
    {
      HullInFrame(frame, valid, clusters[c]);
      CropExactly(frame, Hull(valid, clusters[c]), config.minSize, config.margin);
    }
    ClusterRegionsInFrame(frame, valid, config);
    chain := FinishedExactly(frame, crops, config);
  }

  /** One motion box gives one crop, its own. */
  lemma OneBoxOneCrop(frame: Frame, raw: RawBox, config: RegionConfig) returns (crop: Box)
    requires Croppable(frame) && ClipBox(raw, frame).Some?
    ensures Regions(frame, [raw], config) == [crop]
    ensures CropOf(frame, ClipBox(raw, frame).value, config.minSize, config.margin, crop)
  {
    var box := ClipBox(raw, frame).value;
    ClipIsIntersection(Rounded(raw), frame, box);
    crop := CalculateRegion(frame, box, config.minSize, config.margin);
    CropExactly(frame, box, config.minSize, config.margin);
    OneClipped(raw, frame);
    OneCluster(frame, box, config);
    hide CalculateRegion, CropOf, ClipBox, Clipped, Clusters;
    var clusters := Clusters(frame, [box], config);
    assert clusters == [[0]];
    assert RegionsOf(frame, [box], clusters, config) == [crop];
    OneFinished(frame, crop, config);
  }

  lemma OneClipped(raw: RawBox, frame: Frame)
    requires ClipBox(raw, frame).Some?
    ensures Clipped([raw], frame) == [ClipBox(raw, frame).value]
  {
    hide ClipBox;
    assert Clipped([raw][..0], frame) == [];
  }

  lemma OneCluster(frame: Frame, box: Box, config: RegionConfig)
    ensures Clusters(frame, [box], config) == [[0]]
  {
    hide Joins, ClusterBoundary;
    var boundary := ClusterBoundary(box, config.minSize);
    assert Grow(frame, [box], config, boundary, [0], {0}, 1) == ([0], {0});
    assert Grow(frame, [box], config, boundary, [0], {0}, 0) == ([0], {0});
    assert {} + {0} == {0};
  }

  lemma OneFinished(frame: Frame, crop: Box, config: RegionConfig)
    ensures Sort(Cap(frame, Outermost([crop]), config)) == [crop]
  {
    assert Unique([crop][..0]) == [];
    assert Unique([crop]) == [crop];
    assert KeepOutermost([crop], 0) == [];
    assert Outermost([crop]) == [crop];
    assert Cap(frame, [crop], config) == [crop];
    var sorted := Sort([crop]);
    assert sorted[0] in sorted;
  }
}
