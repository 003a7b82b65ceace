/**
  Grouping motion boxes before cropping (`cluster_boxes`): which boxes share one crop.
  `Clusters` is the value the two nested loops compute; `ClusterBoxes` is the loop form.
 */
module RegionClusters {
  import opened Numbers
  import opened RegionGeometry

  /** The parameters `RegionConfig` holds, without the `enabled` flag that is read outside this code. */
  datatype RegionConfig = RegionConfig(
    minSize: int,
    margin: real,
    maxRegions: int,
    sweepEvery: int,
    idleFullFrame: bool,
    stationarySkip: bool,
    stationaryThreshold: int,
    stationaryInterval: int,
    stationaryIou: real,
    stationaryMaxAge: int,
    matchIou: real,
    mergeIou: real)

  function FloorSqrt(n: nat): (r: nat)
    ensures r * r <= n < (r + 1) * (r + 1)
  {
    if n == 0 then 0
    else
      var below := FloorSqrt(n - 1);
      if (below + 1) * (below + 1) <= n then below + 1 else below
  }

  function Abs(n: int): nat { if n < 0 then -n else n }

  /** The area around a box within which another box is worth grouping with it. */
  function ClusterBoundary(box: Box, minSize: int): Box {
    var w := box.x2 - box.x1;
    var h := box.y2 - box.y1;
    var side := Max(minSize, FloorSqrt(Abs(w * h) * 10));
    var cx := w as real / 2.0 + box.x1 as real;
    var cy := h as real / 2.0 + box.y1 as real;
    var dx := Trunc(side as real - w as real / 2.0 * 1.1) as real;
    var dy := Trunc(side as real - h as real / 2.0 * 1.1) as real;
    Box(Trunc(cx - dx), Trunc(cy - dy), Trunc(cx + dx), Trunc(cy + dy))
  }

  predicate Indices(cluster: seq<nat>, n: nat) {
    forall k | 0 <= k < |cluster| :: cluster[k] < n
  }

  /** Smallest box holding every member of the cluster. */
  function Hull(boxes: seq<Box>, cluster: seq<nat>): Box
    requires cluster != [] && Indices(cluster, |boxes|)
  {
    var last := boxes[cluster[|cluster| - 1]];
    if |cluster| == 1 then last else UnionBox(Hull(boxes, cluster[..|cluster| - 1]), last)
  }

  function RegionForCluster(frame: Frame, boxes: seq<Box>, cluster: seq<nat>, config: RegionConfig): Box
    requires cluster != [] && Indices(cluster, |boxes|)
  {
    CalculateRegion(frame, Hull(boxes, cluster), config.minSize, config.margin)
  }

  /** True when some member would cover less than 5% of the shared crop. */
  predicate Swallowed(boxes: seq<Box>, cluster: seq<nat>, region: Box)
    requires Indices(cluster, |boxes|)
  {
    exists k | 0 <= k < |cluster| ::
      Area(boxes[cluster[k]]) as real / Max(1, Area(region)) as real < 0.05
  }

  /** Whether adding box `j` keeps the crop small or every member large enough in it. */
  predicate Joins(frame: Frame, boxes: seq<Box>, config: RegionConfig, cluster: seq<nat>, j: nat)
    requires Indices(cluster, |boxes|) && j < |boxes|
  {
    var candidate := cluster + [j];
    var region := RegionForCluster(frame, boxes, candidate, config);
    !(region.x2 - region.x1 > config.minSize && Swallowed(boxes, candidate, region))
  }

  /** The inner loop: offer boxes `j..` to the cluster, in order. */
  function Grow(frame: Frame, boxes: seq<Box>, config: RegionConfig, boundary: Box,
                cluster: seq<nat>, used: set<nat>, j: nat): (r: (seq<nat>, set<nat>))
    requires cluster != [] && Indices(cluster, |boxes|) && j <= |boxes|
    ensures r.0 != [] && Indices(r.0, |boxes|)
    decreases |boxes| - j
  {
    if j == |boxes| then (cluster, used)
    else if j !in used && Inside(boundary, boxes[j]) && Joins(frame, boxes, config, cluster, j) then
      Grow(frame, boxes, config, boundary, cluster + [j], used + {j}, j + 1)
    else
      Grow(frame, boxes, config, boundary, cluster, used, j + 1)
  }

  predicate AllClusters(clusters: seq<seq<nat>>, n: nat) {
    forall c | 0 <= c < |clusters| :: clusters[c] != [] && Indices(clusters[c], n)
  }

  /** The outer loop from box `i`, with `used` already placed. */
  function ClustersFrom(frame: Frame, boxes: seq<Box>, config: RegionConfig, used: set<nat>, i: nat)
    : (r: seq<seq<nat>>)
    requires i <= |boxes|
    ensures AllClusters(r, |boxes|) && |r| <= |boxes| - i
    decreases |boxes| - i
  {
    if i == |boxes| then []
    else if i in used then ClustersFrom(frame, boxes, config, used, i + 1)
    else
      var grown := Grow(frame, boxes, config, ClusterBoundary(boxes[i], config.minSize), [i], used + {i}, 0);
      [grown.0] + ClustersFrom(frame, boxes, config, grown.1, i + 1)
  }

  function Clusters(frame: Frame, boxes: seq<Box>, config: RegionConfig): seq<seq<nat>> {
    ClustersFrom(frame, boxes, config, {}, 0)
  }

  method ShouldCluster(frame: Frame, boxes: seq<Box>, config: RegionConfig, cluster: seq<nat>, j: nat)
    returns (should: bool)
    requires Indices(cluster, |boxes|) && j < |boxes|
    ensures should == Joins(frame, boxes, config, cluster, j)
  {
    var candidate := cluster + [j];
    var region := RegionForCluster(frame, boxes, candidate, config);
    should := true;
    if region.x2 - region.x1 > config.minSize {
      for k := 0 to |candidate|
        invariant should
        invariant forall m | 0 <= m < k :: !(Area(boxes[candidate[m]]) as real / Max(1, Area(region)) as real < 0.05)
      {
        if Area(boxes[candidate[k]]) as real / Max(1, Area(region)) as real < 0.05 {
          should := false;
          break;
        }
      }
    }
  }

  method GrowCluster(frame: Frame, boxes: seq<Box>, config: RegionConfig, start: nat, placed: set<nat>)
    returns (cluster: seq<nat>, used: set<nat>)
    requires start < |boxes|
    ensures (cluster, used)
         == Grow(frame, boxes, config, ClusterBoundary(boxes[start], config.minSize), [start], placed + {start}, 0)
  {
    cluster, used := [start], placed + {start};
    var boundary := ClusterBoundary(boxes[start], config.minSize);
    for j := 0 to |boxes|
      invariant cluster != [] && Indices(cluster, |boxes|)
      invariant Grow(frame, boxes, config, boundary, cluster, used, j)
             == Grow(frame, boxes, config, boundary, [start], placed + {start}, 0)
    {
      if j in used || !Inside(boundary, boxes[j]) {
        continue;
      }
      var should := ShouldCluster(frame, boxes, config, cluster, j);
      if should {
        cluster, used := cluster + [j], used + {j};
      }
    }
  }

  method ClusterBoxes(frame: Frame, boxes: seq<Box>, config: RegionConfig) returns (clusters: seq<seq<nat>>)
    ensures clusters == Clusters(frame, boxes, config)
  {
    clusters := [];
    var used: set<nat> := {};
    for i := 0 to |boxes|
      invariant clusters + ClustersFrom(frame, boxes, config, used, i) == Clusters(frame, boxes, config)
    {
      if i in used {
        continue;
      }
      var cluster;
      cluster, used := GrowCluster(frame, boxes, config, i, used);
      clusters := clusters + [cluster];
    }
  }

  // ---------------------------------------------------------------------------------------------
  // Clustering is a partition of the boxes
  // ---------------------------------------------------------------------------------------------

  function Flatten(clusters: seq<seq<nat>>): seq<nat> {
    if clusters == [] then [] else clusters[0] + Flatten(clusters[1..])
  }

  /** Growing a cluster places every index it takes exactly once, and takes only unplaced ones. */
  lemma {:induction false} GrowPlacesOnce(frame: Frame, boxes: seq<Box>, config: RegionConfig, boundary: Box,
                       cluster: seq<nat>, used: set<nat>, j: nat, x: nat)
    requires cluster != [] && Indices(cluster, |boxes|) && j <= |boxes|
    ensures var (grown, after) := Grow(frame, boxes, config, boundary, cluster, used, j);
            && used <= after
            && (x in after && x !in used ==> j <= x < |boxes|)
            && multiset(grown)[x] == multiset(cluster)[x] + if x in after && x !in used then 1 else 0
    decreases |boxes| - j
  {
    hide Joins;
    if j < |boxes| {
      if j !in used && Inside(boundary, boxes[j]) && Joins(frame, boxes, config, cluster, j) {
        GrowPlacesOnce(frame, boxes, config, boundary, cluster + [j], used + {j}, j + 1, x);
      } else {
        GrowPlacesOnce(frame, boxes, config, boundary, cluster, used, j + 1, x);
      }
    }
  }

  lemma {:induction false} ClustersFromPlaceOnce(frame: Frame, boxes: seq<Box>, config: RegionConfig, used: set<nat>, i: nat, x: nat)
    requires i <= |boxes|
    requires forall y: nat | y < i :: y in used
    ensures multiset(Flatten(ClustersFrom(frame, boxes, config, used, i)))[x]
         == if x < |boxes| && x !in used then 1 else 0
    decreases |boxes| - i
  {
    if i < |boxes| {
      if i in used {
        ClustersFromPlaceOnce(frame, boxes, config, used, i + 1, x);
      } else {
        var boundary := ClusterBoundary(boxes[i], config.minSize);
        var grown := Grow(frame, boxes, config, boundary, [i], used + {i}, 0);
        GrowPlacesOnce(frame, boxes, config, boundary, [i], used + {i}, 0, x);
        GrowPlacesOnce(frame, boxes, config, boundary, [i], used + {i}, 0, i);
        forall y: nat | y < i + 1
          ensures y in grown.1
        {
          GrowPlacesOnce(frame, boxes, config, boundary, [i], used + {i}, 0, y);
        }
        ClustersFromPlaceOnce(frame, boxes, config, grown.1, i + 1, x);
        var tail := ClustersFrom(frame, boxes, config, grown.1, i + 1);
        var all := ClustersFrom(frame, boxes, config, used, i);
        assert all[0] == grown.0 && all[1..] == tail;
        assert Flatten(all) == grown.0 + Flatten(tail);
        assert multiset(Flatten(all)) == multiset(grown.0) + multiset(Flatten(tail));
      }
    }
  }

  /** Every box is in exactly one cluster, exactly once, and clusters hold nothing else. */
  lemma ClusteringIsPartition(frame: Frame, boxes: seq<Box>, config: RegionConfig, x: nat)
    ensures multiset(Flatten(Clusters(frame, boxes, config)))[x] == if x < |boxes| then 1 else 0
    ensures |Clusters(frame, boxes, config)| <= |boxes|
  {
    ClustersFromPlaceOnce(frame, boxes, config, {}, 0, x);
  }

  // ---------------------------------------------------------------------------------------------
  // Clustering does not cost the resolution it is for
  // ---------------------------------------------------------------------------------------------

  /** A shared crop is within the minimum size, or every member covers at least 5% of it; all are near the first. */
  predicate Worthwhile(frame: Frame, boxes: seq<Box>, config: RegionConfig, cluster: seq<nat>)
    requires cluster != [] && Indices(cluster, |boxes|)
  {
    var region := RegionForCluster(frame, boxes, cluster, config);
    && (|cluster| > 1 && region.x2 - region.x1 > config.minSize ==> !Swallowed(boxes, cluster, region))
    && forall k | 1 <= k < |cluster| :: Inside(ClusterBoundary(boxes[cluster[0]], config.minSize), boxes[cluster[k]])
  }

  lemma {:induction false} GrowStaysWorthwhile(frame: Frame, boxes: seq<Box>, config: RegionConfig, start: nat,
                                               cluster: seq<nat>, used: set<nat>, j: nat)
    requires start < |boxes| && cluster != [] && cluster[0] == start && Indices(cluster, |boxes|) && j <= |boxes|
    requires Worthwhile(frame, boxes, config, cluster)
    ensures var grown := Grow(frame, boxes, config, ClusterBoundary(boxes[start], config.minSize), cluster, used, j).0;
            Worthwhile(frame, boxes, config, grown)
    decreases |boxes| - j
  {
    if j < |boxes| {
      var boundary := ClusterBoundary(boxes[start], config.minSize);
      if j !in used && Inside(boundary, boxes[j]) && Joins(frame, boxes, config, cluster, j) {
        GrowStaysWorthwhile(frame, boxes, config, start, cluster + [j], used + {j}, j + 1);
      } else {
        GrowStaysWorthwhile(frame, boxes, config, start, cluster, used, j + 1);
      }
    }
  }

  lemma {:induction false} ClustersAreWorthwhile(frame: Frame, boxes: seq<Box>, config: RegionConfig, used: set<nat>, i: nat, c: nat)
    requires i <= |boxes| && c < |ClustersFrom(frame, boxes, config, used, i)|
    ensures Worthwhile(frame, boxes, config, ClustersFrom(frame, boxes, config, used, i)[c])
    decreases |boxes| - i
  {
    hide Worthwhile, ClusterBoundary;
    if i in used {
      ClustersAreWorthwhile(frame, boxes, config, used, i + 1, c);
    } else {
      var grown := Grow(frame, boxes, config, ClusterBoundary(boxes[i], config.minSize), [i], used + {i}, 0);
      if c == 0 {
        GrowStaysWorthwhile(frame, boxes, config, i, [i], used + {i}, 0);
      } else {
        ClustersAreWorthwhile(frame, boxes, config, grown.1, i + 1, c - 1);
      }
    }
  }

  // ---------------------------------------------------------------------------------------------
  // Which boxes share a cluster
  // ---------------------------------------------------------------------------------------------

  /**
    The joining rule written out: the crop around all boxes of the candidate is within the minimum size, or every one
    of them has at least a twentieth of its area.
   */
  lemma JoinsExactly(frame: Frame, boxes: seq<Box>, config: RegionConfig, cluster: seq<nat>, j: nat, hull: Box, crop: Box)
    requires Indices(cluster, |boxes|) && j < |boxes|
    requires forall b | b in boxes :: InFrame(frame, b)
    requires hull == Hull(boxes, cluster + [j]) && CropOf(frame, hull, config.minSize, config.margin, crop)
    ensures Joins(frame, boxes, config, cluster, j) <==>
            || crop.x2 - crop.x1 <= config.minSize
            || forall k | 0 <= k < |cluster + [j]| ::
                 20 * PixelsOf(boxes[(cluster + [j])[k]]) >= (crop.x2 - crop.x1) * (crop.y2 - crop.y1)
  {
    var candidate := cluster + [j];
    HullInFrame(frame, boxes, candidate);
    CropExactly(frame, hull, config.minSize, config.margin);
    CropIsUnique(frame, hull, config.minSize, config.margin, crop, RegionForCluster(frame, boxes, candidate, config));
    CropHasPixels(frame, hull, config.minSize, config.margin, crop);
    assert forall k | 0 <= k < |candidate| :: boxes[candidate[k]] in boxes;
    SwallowedExactly(boxes, candidate, crop);
    hide Hull, CalculateRegion, CropOf, Swallowed;
  }

  lemma SwallowedExactly(boxes: seq<Box>, candidate: seq<nat>, crop: Box)
    requires Indices(candidate, |boxes|) && Nonempty(crop)
    requires forall k | 0 <= k < |candidate| :: Nonempty(boxes[candidate[k]])
    ensures Swallowed(boxes, candidate, crop) <==>
            exists k | 0 <= k < |candidate| :: 20 * PixelsOf(boxes[candidate[k]]) < (crop.x2 - crop.x1) * (crop.y2 - crop.y1)
  {
    forall k | 0 <= k < |candidate|
      ensures Area(boxes[candidate[k]]) as real / Max(1, Area(crop)) as real < 0.05 <==>
              20 * PixelsOf(boxes[candidate[k]]) < (crop.x2 - crop.x1) * (crop.y2 - crop.y1)
    {
      FivePercent(boxes[candidate[k]], crop);
    }
    hide Area, PixelsOf;
  }

  /** Pixels of a nonempty box. */
  function PixelsOf(b: Box): int { (b.x2 - b.x1) * (b.y2 - b.y1) }

  lemma CropHasPixels(frame: Frame, box: Box, minSize: int, multiplier: real, crop: Box)
    requires InFrame(frame, box) && CropOf(frame, box, minSize, multiplier, crop)
    ensures Nonempty(crop)
  {
    hide CropSize;
  }

  lemma FivePercent(b: Box, crop: Box)
    requires Nonempty(b) && Nonempty(crop)
    ensures Area(b) as real / Max(1, Area(crop)) as real < 0.05 <==> 20 * PixelsOf(b) < PixelsOf(crop)
  {
    assert Area(b) == PixelsOf(b) && Area(crop) == PixelsOf(crop) >= 1;
    Twentieth(PixelsOf(b), PixelsOf(crop));
  }

  lemma Twentieth(part: int, whole: int)
    requires whole > 0
    ensures part as real / whole as real < 0.05 <==> 20 * part < whole
  {
    QuotientTimes(part as real, whole as real);
    var share := part as real / whole as real;
    if share < 0.05 {
      TimesPositive(share, 0.05, whole as real);
    } else if share > 0.05 {
      TimesPositive(0.05, share, whole as real);
    }
  }

  lemma TimesPositive(a: real, b: real, w: real)
    requires a < b && w > 0.0
    ensures a * w < b * w
  {
    assert (b - a) * w > 0.0;
  }

  /** The area around a box: its middle, `reach` pixels less 0.55 of its side away on each axis, truncated twice. */
  lemma BoundaryExactly(box: Box, minSize: int) returns (reach: int, dx: int, dy: int)
    requires Nonempty(box)
    ensures reach >= minSize && (reach > minSize ==> reach * reach <= 10 * PixelsOf(box))
    ensures reach < 0 || 10 * PixelsOf(box) < (reach + 1) * (reach + 1)
    ensures TowardsZero(reach as real - 0.55 * (box.x2 - box.x1) as real, dx)
    ensures TowardsZero(reach as real - 0.55 * (box.y2 - box.y1) as real, dy)
    ensures var boundary := ClusterBoundary(box, minSize);
            && TowardsZero((box.x1 + box.x2) as real / 2.0 - dx as real, boundary.x1)
            && TowardsZero((box.y1 + box.y2) as real / 2.0 - dy as real, boundary.y1)
            && TowardsZero((box.x1 + box.x2) as real / 2.0 + dx as real, boundary.x2)
            && TowardsZero((box.y1 + box.y2) as real / 2.0 + dy as real, boundary.y2)
  {
    var w, h := box.x2 - box.x1, box.y2 - box.y1;
    reach := ReachExactly(box, minSize);
    dx := Trunc(reach as real - w as real / 2.0 * 1.1);
    dy := Trunc(reach as real - h as real / 2.0 * 1.1);
    hide FloorSqrt, Abs, PixelsOf, Trunc, TowardsZero;
    forall r: real
      ensures TowardsZero(r, Trunc(r))
    {
      TruncExactly(r);
    }
    assert w as real / 2.0 + box.x1 as real == (box.x1 + box.x2) as real / 2.0;
    assert h as real / 2.0 + box.y1 as real == (box.y1 + box.y2) as real / 2.0;
    assert w as real / 2.0 * 1.1 == 0.55 * w as real && h as real / 2.0 * 1.1 == 0.55 * h as real;
  }

  lemma TruncExactly(r: real)
    ensures TowardsZero(r, Trunc(r))
  {
  }

  lemma ReachExactly(box: Box, minSize: int) returns (reach: int)
    requires Nonempty(box)
    ensures reach == Max(minSize, FloorSqrt(Abs((box.x2 - box.x1) * (box.y2 - box.y1)) * 10))
    ensures reach >= minSize && (reach > minSize ==> reach * reach <= 10 * PixelsOf(box))
    ensures reach < 0 || 10 * PixelsOf(box) < (reach + 1) * (reach + 1)
  {
    var root := FloorSqrt(Abs((box.x2 - box.x1) * (box.y2 - box.y1)) * 10);
    assert PixelsOf(box) > 0;
    reach := Max(minSize, root);
    if root < reach {
      ProductMonotone(root + 1, root + 1, reach + 1, reach + 1);
    }
  }

  /** Index `x` joined exactly if its box fitted the cluster as it stood when `x` was offered: the members before it. */
  predicate Decided(frame: Frame, boxes: seq<Box>, config: RegionConfig, boundary: Box, cluster: seq<nat>, p: nat, x: nat)
    requires Indices(cluster, |boxes|) && x < |boxes|
  {
    && 1 <= p <= |cluster|
    && (forall k | 1 <= k < p :: cluster[k] < x)
    && (forall k | p <= k < |cluster| :: cluster[k] >= x)
    && (x in cluster[p..] <==> Inside(boundary, boxes[x]) && Joins(frame, boxes, config, cluster[..p], x))
  }

  /** What growing adds: unplaced later indices in ascending order, all of them noted as placed. */
  lemma {:induction false} GrowAdds(frame: Frame, boxes: seq<Box>, config: RegionConfig, boundary: Box,
                                    cluster: seq<nat>, used: set<nat>, j: nat)
    requires cluster != [] && Indices(cluster, |boxes|) && j <= |boxes|
    ensures var (grown, after) := Grow(frame, boxes, config, boundary, cluster, used, j);
            && |cluster| <= |grown| && grown[..|cluster|] == cluster
            && (forall k | |cluster| <= k < |grown| :: j <= grown[k] && grown[k] !in used)
            && (forall k, l | |cluster| <= k < l < |grown| :: grown[k] < grown[l])
            && after == used + set k | |cluster| <= k < |grown| :: grown[k]
    decreases |boxes| - j
  {
    hide Joins;
    if j < |boxes| {
      if j !in used && Inside(boundary, boxes[j]) && Joins(frame, boxes, config, cluster, j) {
        GrowAdds(frame, boxes, config, boundary, cluster + [j], used + {j}, j + 1);
        var grown := Grow(frame, boxes, config, boundary, cluster, used, j).0;
        assert grown[|cluster|] == grown[..|cluster| + 1][|cluster|] == j;
        assert grown[..|cluster|] == grown[..|cluster| + 1][..|cluster|];
      } else {
        GrowAdds(frame, boxes, config, boundary, cluster, used, j + 1);
      }
    }
  }

  lemma {:induction false} GrowDecides(frame: Frame, boxes: seq<Box>, config: RegionConfig, boundary: Box,
                                       cluster: seq<nat>, used: set<nat>, j: nat, x: nat) returns (p: nat)
    requires cluster != [] && Indices(cluster, |boxes|) && j <= x < |boxes| && x !in used
    requires forall k | 1 <= k < |cluster| :: cluster[k] < j
    ensures p >= |cluster|
    ensures Decided(frame, boxes, config, boundary, Grow(frame, boxes, config, boundary, cluster, used, j).0, p, x)
    decreases |boxes| - j
  {
    hide Joins;
    var grown := Grow(frame, boxes, config, boundary, cluster, used, j).0;
    GrowAdds(frame, boxes, config, boundary, cluster, used, j);
    var joins := j !in used && Inside(boundary, boxes[j]) && Joins(frame, boxes, config, cluster, j);
    if j == x {
      p := |cluster|;
      if joins {
        GrowAdds(frame, boxes, config, boundary, cluster + [j], used + {j}, j + 1);
        assert grown[|cluster|] == grown[..|cluster| + 1][|cluster|] == j;
        assert grown[p..][0] == j;
      } else {
        GrowAdds(frame, boxes, config, boundary, cluster, used, j + 1);
      }
    } else if joins {
      p := GrowDecides(frame, boxes, config, boundary, cluster + [j], used + {j}, j + 1, x);
    } else {
      p := GrowDecides(frame, boxes, config, boundary, cluster, used, j + 1, x);
    }
  }

  function Members(clusters: seq<seq<nat>>): set<nat> { set x | x in Flatten(clusters) }

  /** A cluster starts at the first unplaced box; from there every unplaced box was decided in turn. */
  ghost predicate GrewFrom(frame: Frame, boxes: seq<Box>, config: RegionConfig, placed: set<nat>, cluster: seq<nat>)
    requires cluster != [] && Indices(cluster, |boxes|)
  {
    var start := cluster[0];
    && start !in placed && (forall y: nat | y < start :: y in placed)
    && (forall k, l | 1 <= k < l < |cluster| :: cluster[k] < cluster[l])
    && (forall k | 0 <= k < |cluster| :: cluster[k] !in placed)
    && forall x: nat | x < |boxes| && x !in placed && x != start ::
         exists p: nat :: Decided(frame, boxes, config, ClusterBoundary(boxes[start], config.minSize), cluster, p, x)
  }

  lemma GrowGrows(frame: Frame, boxes: seq<Box>, config: RegionConfig, used: set<nat>, i: nat)
    requires i < |boxes| && i !in used && forall y: nat | y < i :: y in used
    ensures var grown := Grow(frame, boxes, config, ClusterBoundary(boxes[i], config.minSize), [i], used + {i}, 0);
            GrewFrom(frame, boxes, config, used, grown.0) && grown.1 == used + set x | x in grown.0
  {
    hide Joins, ClusterBoundary, Decided;
    var boundary := ClusterBoundary(boxes[i], config.minSize);
    var (grown, after) := Grow(frame, boxes, config, boundary, [i], used + {i}, 0);
    GrowAdds(frame, boxes, config, boundary, [i], used + {i}, 0);
    assert grown[0] == grown[..1][0] == i;
    forall x: nat | x < |boxes| && x !in used && x != i
      ensures exists p: nat :: Decided(frame, boxes, config, boundary, grown, p, x)
    {
      var p := GrowDecides(frame, boxes, config, boundary, [i], used + {i}, 0, x);
    }
  }

  /** Each cluster grew from the boxes that the clusters before it left. */
  lemma {:induction false} ClustersGrowExactly(frame: Frame, boxes: seq<Box>, config: RegionConfig, used: set<nat>, i: nat, c: nat)
    requires i <= |boxes| && (forall y: nat | y < i :: y in used)
    requires c < |ClustersFrom(frame, boxes, config, used, i)|
    ensures var clusters := ClustersFrom(frame, boxes, config, used, i);
            GrewFrom(frame, boxes, config, used + Members(clusters[..c]), clusters[c])
    decreases |boxes| - i
  {
    hide GrewFrom, ClusterBoundary;
    var clusters := ClustersFrom(frame, boxes, config, used, i);
    if i in used {
      ClustersGrowExactly(frame, boxes, config, used, i + 1, c);
    } else {
      var grown := Grow(frame, boxes, config, ClusterBoundary(boxes[i], config.minSize), [i], used + {i}, 0);
      GrowGrows(frame, boxes, config, used, i);
      if c == 0 {
        assert used + Members(clusters[..0]) == used;
      } else {
        GrowAdds(frame, boxes, config, ClusterBoundary(boxes[i], config.minSize), [i], used + {i}, 0);
        assert grown.0[0] == grown.0[..1][0] == i;
        ClustersGrowExactly(frame, boxes, config, grown.1, i + 1, c - 1);
        var rest := ClustersFrom(frame, boxes, config, grown.1, i + 1);
        assert clusters[..c][0] == grown.0 && clusters[..c][1..] == rest[..c - 1];
        assert used + Members(clusters[..c]) == grown.1 + Members(rest[..c - 1]);
      }
    }
  }

  lemma {:induction false} FlattenFinds(clusters: seq<seq<nat>>, x: nat) returns (c: nat, k: nat)
    requires x in Flatten(clusters)
    ensures c < |clusters| && k < |clusters[c]| && clusters[c][k] == x
  {
    if x in clusters[0] {
      c := 0;
      k :| 0 <= k < |clusters[0]| && clusters[0][k] == x;
    } else {
      c, k := FlattenFinds(clusters[1..], x);
      c := c + 1;
    }
  }

  lemma {:induction false} HullHoldsMember(boxes: seq<Box>, cluster: seq<nat>, k: nat)
    requires cluster != [] && Indices(cluster, |boxes|) && k < |cluster|
    ensures Inside(Hull(boxes, cluster), boxes[cluster[k]])
  {
    if k < |cluster| - 1 {
      HullHoldsMember(boxes, cluster[..|cluster| - 1], k);
    }
  }

  /** And nothing smaller does. */
  lemma {:induction false} HullIsSmallest(boxes: seq<Box>, cluster: seq<nat>, p: Box)
    requires cluster != [] && Indices(cluster, |boxes|)
    requires forall k | 0 <= k < |cluster| :: Inside(p, boxes[cluster[k]])
    ensures Inside(p, Hull(boxes, cluster))
  {
    if |cluster| > 1 {
      HullIsSmallest(boxes, cluster[..|cluster| - 1], p);
    }
  }

  lemma {:induction false} HullInFrame(frame: Frame, boxes: seq<Box>, cluster: seq<nat>)
    requires cluster != [] && Indices(cluster, |boxes|)
    requires forall b | b in boxes :: InFrame(frame, b)
    ensures InFrame(frame, Hull(boxes, cluster))
  {
    assert boxes[cluster[|cluster| - 1]] in boxes;
    if |cluster| > 1 {
      HullInFrame(frame, boxes, cluster[..|cluster| - 1]);
    }
  }

  /** Each in-frame box lies wholly inside the crop of the cluster it was put in. */
  lemma ClusterRegionsCover(frame: Frame, boxes: seq<Box>, config: RegionConfig, x: nat) returns (c: nat)
    requires x < |boxes|
    requires forall b | b in boxes :: InFrame(frame, b)
    ensures c < |Clusters(frame, boxes, config)|
    ensures Inside(RegionForCluster(frame, boxes, Clusters(frame, boxes, config)[c], config), boxes[x])
  {
    var clusters := Clusters(frame, boxes, config);
    ClusteringIsPartition(frame, boxes, config, x);
    assert x in multiset(Flatten(clusters));
    var k;
    c, k := FlattenFinds(clusters, x);
    HullHoldsMember(boxes, clusters[c], k);
    HullInFrame(frame, boxes, clusters[c]);
    var hull := Hull(boxes, clusters[c]);
    ClipOfInFrame(hull, frame);
    RegionCoversSource(frame, hull, config.minSize, config.margin);
  }
}
