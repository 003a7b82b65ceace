/**
  What `plan` and `commit` keep over whole runs: motion and cached objects are covered or carried, carried
  objects are reported and looked at again in time. `PlannerAgeDrop` treats the age limit of the cache.
 */
module PlannerRuns {
  import opened Numbers
  import opened RegionGeometry
  import opened RegionClusters
  import opened RegionBuild
  import opened IouDedupe
  import opened RegionPlanner

  // ---------------------------------------------------------------------------------------------
  // One plan
  // ---------------------------------------------------------------------------------------------

  /** What every cached object satisfies between frames. */
  predicate GoodEntry(frame: Frame, now: int, e: Entry) {
    && InFrame(frame, e.box)
    && e.payload.box == e.box && e.payload.classId == e.classId
    && e.lastSeen == e.lastInfer <= now
  }

  predicate GoodScene(frame: Frame, scene: Scene) {
    forall i | 0 <= i < |scene.entries| :: GoodEntry(frame, scene.frameIndex, scene.entries[i])
  }

  predicate SkippedAt(frame: Frame, config: RegionConfig, scene: Scene, motion: seq<RawBox>, i: nat)
    requires i < |scene.entries|
  {
    Skipped(config, scene.frameIndex + 1, MotionRegions(frame, config, motion), Clipped(motion, frame), scene.entries[i])
  }

  /** Clipping the already clipped boxes again, as `build_regions` does, changes nothing. */
  lemma {:induction false} ClippedTwice(frame: Frame, boxes: seq<Box>)
    requires AllInFrame(frame, boxes)
    ensures Clipped(Raws(boxes), frame) == boxes
  {
    if boxes != [] {
      var n := |boxes| - 1;
      ClippedTwice(frame, boxes[..n]);
      ClipOfInFrame(boxes[n], frame);
      assert Raws(boxes)[..n] == Raws(boxes[..n]);
      assert boxes == boxes[..n] + [boxes[n]];
    }
  }

  lemma MotionRegionsCover(frame: Frame, config: RegionConfig, motion: seq<RawBox>, b: Box)
    requires Croppable(frame)
    ensures AllInFrame(frame, MotionRegions(frame, config, motion))
    ensures b in Clipped(motion, frame) ==> Covered(MotionRegions(frame, config, motion), b)
    ensures |MotionRegions(frame, config, motion)| <= Max(Limit(config), |motion| - GUARD)
    ensures MotionRegions(frame, config, motion) == [] <==> Clipped(motion, frame) == []
  {
    ClippedInFrame(motion, frame);
    ClippedTwice(frame, Clipped(motion, frame));
    CropsCoverBoxes(frame, Clipped(motion, frame), config, b);
  }

  lemma {:induction false} ForcedCover(frame: Frame, config: RegionConfig, now: int, regions: seq<Box>, boxes: seq<Box>,
                                       entries: seq<Entry>, n: nat, i: nat)
    requires Croppable(frame) && i < n <= |entries|
    requires forall k | 0 <= k < n :: InFrame(frame, entries[k].box)
    ensures var forced := ForcedOf(frame, config, now, regions, boxes, entries, n);
            && AllInFrame(frame, forced)
            && (!Covered(regions, entries[i].box) && !Skipped(config, now, regions, boxes, entries[i]) ==>
                  Covered(forced, entries[i].box))
  {
    var e := entries[n - 1];
    var forced := ForcedOf(frame, config, now, regions, boxes, entries, n);
    var region := EntryRegion(frame, config, e);
    ClipOfInFrame(e.box, frame);
    RegionCoversSource(frame, e.box, config.minSize, config.margin);
    RegionInFrameIff(frame, e.box, config.minSize, config.margin);
    if i < n - 1 {
      ForcedCover(frame, config, now, regions, boxes, entries, n - 1, i);
    } else {
      if n > 1 {
        ForcedCover(frame, config, now, regions, boxes, entries, n - 1, 0);
      }
      if !Covered(regions, e.box) && !Skipped(config, now, regions, boxes, e) {
        assert forced[|forced| - 1] == region;
        assert region in forced;
      }
    }
  }

  lemma {:induction false} SkippedIsCarried(config: RegionConfig, now: int, regions: seq<Box>, boxes: seq<Box>,
                                            entries: seq<Entry>, n: nat, i: nat)
    requires i < n <= |entries| && Skipped(config, now, regions, boxes, entries[i])
    ensures Carry(Skip(entries[i])) in CarriedOf(config, now, regions, boxes, entries, n)
  {
    if i < n - 1 {
      SkippedIsCarried(config, now, regions, boxes, entries, n - 1, i);
    }
  }

  lemma WithForcedCovers(frame: Frame, config: RegionConfig, regions: seq<Box>, forced: seq<Box>, b: Box)
    requires Croppable(frame) && AllInFrame(frame, regions) && AllInFrame(frame, forced)
    ensures AllInFrame(frame, WithForced(frame, config, regions, forced))
    ensures Covered(regions, b) || Covered(forced, b) ==> Covered(WithForced(frame, config, regions, forced), b)
    ensures |regions| <= Limit(config) && |forced| <= GUARD ==> |WithForced(frame, config, regions, forced)| <= Limit(config)
  {
    if forced != [] {
      forall r | r in regions + forced
        ensures InFrame(frame, r)
      {
      }
      if Covered(regions, b) || Covered(forced, b) {
        var r :| (r in regions || r in forced) && Inside(r, b);
        assert r in regions + forced;
      }
      FinishedRegions(frame, regions + forced, config, b);
    }
  }

  lemma FinishCovers(frame: Frame, config: RegionConfig, now: int, regions: seq<Box>, carried: seq<Detection>, b: Box)
    requires Croppable(frame) && AllInFrame(frame, regions)
    ensures var plan := Finish(frame, config, now, regions, carried);
            && AllInFrame(frame, plan.regions)
            && (Covered(regions, b) ==> Covered(plan.regions, b))
            && (plan.sweep && InFrame(frame, b) ==> Covered(plan.regions, b))
            && |plan.regions| <= |regions| + 1
  {
    var plan := Finish(frame, config, now, regions, carried);
    if Covered(regions, b) {
      var r :| r in regions && Inside(r, b);
      assert r in plan.regions;
    }
    if plan.sweep && InFrame(frame, b) {
      assert FullFrame(frame) in plan.regions;
    }
  }

  /** The last steps of a plan together: adding forced crops, the sweep, the idle frame. */
  lemma FinishedPlanCovers(frame: Frame, config: RegionConfig, now: int, regions: seq<Box>, forced: seq<Box>,
                           carried: seq<Detection>, b: Box)
    requires Croppable(frame) && AllInFrame(frame, regions) && AllInFrame(frame, forced)
    ensures var plan := Finish(frame, config, now, WithForced(frame, config, regions, forced), carried);
            && (Covered(regions, b) || Covered(forced, b) || (plan.sweep && InFrame(frame, b)) ==> Covered(plan.regions, b))
            && AllInFrame(frame, plan.regions)
            && (|regions| <= Limit(config) && |forced| <= GUARD ==> |plan.regions| <= Limit(config) + 1)
  {
    WithForcedCovers(frame, config, regions, forced, b);
    FinishCovers(frame, config, now, WithForced(frame, config, regions, forced), carried, b);
  }

  lemma ForcedInFrame(frame: Frame, config: RegionConfig, now: int, regions: seq<Box>, boxes: seq<Box>, entries: seq<Entry>)
    requires Croppable(frame)
    requires forall k | 0 <= k < |entries| :: InFrame(frame, entries[k].box)
    ensures AllInFrame(frame, ForcedOf(frame, config, now, regions, boxes, entries, |entries|))
  {
    if entries != [] {
      ForcedCover(frame, config, now, regions, boxes, entries, |entries|, 0);
    }
  }

  /** A cached object that is not skipped, or any cached object on a sweep, is inside a planned crop. */
  lemma PlanCoversEntry(frame: Frame, config: RegionConfig, scene: Scene, boxes: seq<Box>, regions: seq<Box>, i: nat)
    requires Croppable(frame) && AllInFrame(frame, regions) && i < |scene.entries|
    requires forall k | 0 <= k < |scene.entries| :: InFrame(frame, scene.entries[k].box)
    requires !Skipped(config, scene.frameIndex + 1, regions, boxes, scene.entries[i])
             || SweepFrame(config, scene.frameIndex + 1)
    ensures Covered(PlanWith(frame, config, scene, boxes, regions).regions, scene.entries[i].box)
  {
    hide WithForced;
    var now, n := scene.frameIndex + 1, |scene.entries|;
    var forced := ForcedOf(frame, config, now, regions, boxes, scene.entries, n);
    var carried := CarriedOf(config, now, regions, boxes, scene.entries, n);
    ForcedCover(frame, config, now, regions, boxes, scene.entries, n, i);
    FinishedPlanCovers(frame, config, now, regions, forced, carried, scene.entries[i].box);
  }

  /** The motion side of a plan: no crop is lost on the way, all are in frame, the ceiling holds. */
  lemma PlanCoversBox(frame: Frame, config: RegionConfig, scene: Scene, boxes: seq<Box>, regions: seq<Box>, b: Box)
    requires Croppable(frame) && AllInFrame(frame, regions)
    requires forall k | 0 <= k < |scene.entries| :: InFrame(frame, scene.entries[k].box)
    ensures var plan := PlanWith(frame, config, scene, boxes, regions);
            && (Covered(regions, b) ==> Covered(plan.regions, b))
            && AllInFrame(frame, plan.regions)
            && (|regions| <= Limit(config) && |scene.entries| <= GUARD ==> |plan.regions| <= Limit(config) + 1)
  {
    hide WithForced;
    var now, n := scene.frameIndex + 1, |scene.entries|;
    var forced := ForcedOf(frame, config, now, regions, boxes, scene.entries, n);
    var carried := CarriedOf(config, now, regions, boxes, scene.entries, n);
    ForcedInFrame(frame, config, now, regions, boxes, scene.entries);
    FinishedPlanCovers(frame, config, now, regions, forced, carried, b);
  }

  /** The visible part of every motion box is wholly inside a planned crop; crops are in frame and few. */
  lemma PlanCoversMotion(frame: Frame, config: RegionConfig, scene: Scene, motion: seq<RawBox>, raw: RawBox)
    requires Croppable(frame) && GoodScene(frame, scene)
    ensures var plan := PlanOf(frame, config, scene, motion);
            && (raw in motion && ClipBox(raw, frame).Some? ==> Covered(plan.regions, ClipBox(raw, frame).value))
            && AllInFrame(frame, plan.regions)
            && (|motion| <= 1000 && |scene.entries| <= 1000 ==> |plan.regions| <= Max(1, config.maxRegions) + 1)
  {
    var b := if ClipBox(raw, frame).Some? then ClipBox(raw, frame).value else FullFrame(frame);
    var boxes, regions := Clipped(motion, frame), MotionRegions(frame, config, motion);
    ClippedExactly(motion, frame, b);
    MotionRegionsCover(frame, config, motion, b);
    PlanCoversBox(frame, config, scene, boxes, regions, b);
  }

  /** Every cached object is inside a planned crop or carried, and inside one on a sweep. */
  lemma PlanCoversCache(frame: Frame, config: RegionConfig, scene: Scene, motion: seq<RawBox>, i: nat)
    requires Croppable(frame) && GoodScene(frame, scene) && i < |scene.entries|
    ensures if SkippedAt(frame, config, scene, motion, i)
            then Carry(Skip(scene.entries[i])) in PlanOf(frame, config, scene, motion).carried
            else Covered(PlanOf(frame, config, scene, motion).regions, scene.entries[i].box)
    ensures SweepFrame(config, scene.frameIndex + 1) ==>
              Covered(PlanOf(frame, config, scene, motion).regions, scene.entries[i].box)
  {
    hide WithForced, MotionRegions;
    var boxes, regions := Clipped(motion, frame), MotionRegions(frame, config, motion);
    MotionRegionsCover(frame, config, motion, FullFrame(frame));
    if SkippedAt(frame, config, scene, motion, i) {
      SkippedIsCarried(config, scene.frameIndex + 1, regions, boxes, scene.entries, |scene.entries|, i);
    }
    if !SkippedAt(frame, config, scene, motion, i) || SweepFrame(config, scene.frameIndex + 1) {
      PlanCoversEntry(frame, config, scene, boxes, regions, i);
    }
  }

  // ---------------------------------------------------------------------------------------------
  // One commit
  // ---------------------------------------------------------------------------------------------

  /** Unmatched positions still hold the object they held; matched ones hold a detection of this frame. */
  predicate Faithful(now: int, before: seq<Entry>, found: seq<Detection>, m: Matching) {
    && |before| <= |m.entries|
    && (forall k | k in m.matched :: k < |m.entries| && JustSeen(now, found, m.entries[k]))
    && (forall k: nat | k < |m.entries| && k !in m.matched :: k < |before| && m.entries[k] == before[k])
  }

  predicate JustSeen(now: int, found: seq<Detection>, e: Entry) {
    && e.lastSeen == now && e.lastInfer == now
    && e.payload in found && e.box == e.payload.box && e.classId == e.payload.classId
  }

  lemma {:induction false} NothingForced(frame: Frame, config: RegionConfig, now: int, boxes: seq<Box>,
                                         entries: seq<Entry>, n: nat)
    requires n <= |entries|
    ensures ForcedOf(frame, config, now, [], boxes, entries, n) == [] <==>
            forall k | 0 <= k < n :: Skipped(config, now, [], boxes, entries[k])
  {
    hide Skipped, EntryRegion;
    if n > 0 {
      NothingForced(frame, config, now, boxes, entries, n - 1);
    }
  }

  lemma {:induction false} NothingCarried(config: RegionConfig, now: int, boxes: seq<Box>, entries: seq<Entry>, n: nat)
    requires n <= |entries|
    ensures CarriedOf(config, now, [], boxes, entries, n) == [] <==>
            forall k | 0 <= k < n :: !Skipped(config, now, [], boxes, entries[k])
  {
    hide Skipped, Carry, Skip;
    if n > 0 {
      NothingCarried(config, now, boxes, entries, n - 1);
    }
  }

  /**
    When the model is not run at all: exactly in a frame without visible motion and without a sweep in which
    every cached object is served from the cache, and there is one, unless idle frames are switched off.
   */
  lemma NothingPlannedExactly(frame: Frame, config: RegionConfig, scene: Scene, motion: seq<RawBox>)
    requires Croppable(frame) && GoodScene(frame, scene)
    ensures PlanOf(frame, config, scene, motion).regions == [] <==>
            && Clipped(motion, frame) == [] && !SweepFrame(config, scene.frameIndex + 1)
            && (forall i | 0 <= i < |scene.entries| :: SkippedAt(frame, config, scene, motion, i))
            && (scene.entries != [] || !config.idleFullFrame)
  {
    hide MotionRegions, WithForced, Skipped, ForcedOf, CarriedOf;
    var now, entries, boxes := scene.frameIndex + 1, scene.entries, Clipped(motion, frame);
    var regions := MotionRegions(frame, config, motion);
    MotionRegionsCover(frame, config, motion, FullFrame(frame));
    ForcedInFrame(frame, config, now, regions, boxes, entries);
    var forced := ForcedOf(frame, config, now, regions, boxes, entries, |entries|);
    ForcedLeavesSome(frame, config, regions, forced);
    if regions == [] {
      NothingForced(frame, config, now, boxes, entries, |entries|);
      NothingCarried(config, now, boxes, entries, |entries|);
      forall i | 0 <= i < |entries|
        ensures SkippedAt(frame, config, scene, motion, i) == Skipped(config, now, [], boxes, entries[i])
      {
      }
      assert entries != [] && Skipped(config, now, [], boxes, entries[0]) ==>
          CarriedOf(config, now, [], boxes, entries, |entries|) != [];
    }
  }

  lemma ForcedLeavesSome(frame: Frame, config: RegionConfig, regions: seq<Box>, forced: seq<Box>)
    requires Croppable(frame) && AllInFrame(frame, regions) && AllInFrame(frame, forced)
    ensures WithForced(frame, config, regions, forced) == [] <==> regions == [] && forced == []
  {
    if forced != [] {
      assert forall r | r in regions + forced :: InFrame(frame, r);
      FinishedRegions(frame, regions + forced, config, FullFrame(frame));
    }
  }

  /** A skipped object is looked at again in the very frame in which visible motion touches it. */
  lemma MotionEndsSkipping(frame: Frame, config: RegionConfig, scene: Scene, motion: seq<RawBox>, i: nat, b: Box)
    requires Croppable(frame) && GoodScene(frame, scene) && i < |scene.entries|
    requires b in Clipped(motion, frame)
    requires var e := scene.entries[i].box; e.x1 <= b.x2 && b.x1 <= e.x2 && e.y1 <= b.y2 && b.y1 <= e.y2
    ensures Covered(PlanOf(frame, config, scene, motion).regions, scene.entries[i].box)
  {
    assert Touched(scene.entries[i], Clipped(motion, frame));
    PlanCoversCache(frame, config, scene, motion, i);
  }

  lemma {:induction false} AbsorbFaithful(config: RegionConfig, now: int, before: seq<Entry>, found: seq<Detection>)
    ensures Faithful(now, before, found, AbsorbAll(config, now, before, found))
  {
    if found != [] {
      var n := |found| - 1;
      AbsorbFaithful(config, now, before, found[..n]);
      var m := AbsorbAll(config, now, before, found[..n]);
      var after := AbsorbAll(config, now, before, found);
      assert found == found[..n] + [found[n]];
      forall k | k in after.matched
        ensures k < |after.entries| && JustSeen(now, found, after.entries[k])
      {
        if k in m.matched {
          assert JustSeen(now, found[..n], m.entries[k]);
        }
      }
    }
  }

  predicate Holds(m: Matching, d: Detection) {
    exists k: nat | k < |m.entries| :: k in m.matched && m.entries[k].payload == d
  }

  lemma AbsorbHolds(config: RegionConfig, now: int, m: Matching, item: Detection, d: Detection)
    requires forall k | k in m.matched :: k < |m.entries|
    ensures |Absorb(config, now, m, item).matched| == |m.matched| + 1
    ensures Holds(m, d) || d == item ==> Holds(Absorb(config, now, m, item), d)
  {
    var (best, iou) := Best(config, m, item, |m.entries|);
    var slot: nat := if best >= 0 then best else |m.entries|;
    var after := Absorb(config, now, m, item);
    assert slot !in m.matched && after.matched == m.matched + {slot} && after.entries[slot].payload == item;
    if Holds(m, d) {
      var k: nat :| k < |m.entries| && k in m.matched && m.entries[k].payload == d;
      assert k in after.matched && after.entries[k] == m.entries[k];
    }
  }

  /** Every detection of the frame is held by a cached object afterwards: one each, none overwritten. */
  lemma {:induction false} AbsorbHoldsAll(config: RegionConfig, now: int, before: seq<Entry>, found: seq<Detection>, d: Detection)
    ensures |AbsorbAll(config, now, before, found).matched| == |found|
    ensures d in found ==> Holds(AbsorbAll(config, now, before, found), d)
  {
    if found != [] {
      var n := |found| - 1;
      assert found == found[..n] + [found[n]];
      AbsorbHoldsAll(config, now, before, found[..n], d);
      AbsorbFaithful(config, now, before, found[..n]);
      AbsorbHolds(config, now, AbsorbAll(config, now, before, found[..n]), found[n], d);
    }
  }

  /** Cached object `k` may take the detection: free, same class, overlapping enough. */
  predicate Eligible(config: RegionConfig, m: Matching, item: Detection, k: nat)
    requires k < |m.entries|
  {
    && k !in m.matched && m.entries[k].classId == item.classId
    && Iou(m.entries[k].box, item.box) >= config.matchIou && Iou(m.entries[k].box, item.box) > 0.0
  }

  /** A detection goes to the first of the eligible cached objects that overlap it most, and to none only if there is none. */
  lemma {:induction false} BestIsFirstMaximum(config: RegionConfig, m: Matching, item: Detection, n: nat, k: nat)
    requires k < n <= |m.entries|
    ensures var (best, iou) := Best(config, m, item, n);
            && (best >= 0 ==> Eligible(config, m, item, best))
            && (Eligible(config, m, item, k) ==>
                  best >= 0 && (iou > Iou(m.entries[k].box, item.box) || (iou == Iou(m.entries[k].box, item.box) && best <= k)))
  {
    hide Iou;
    if n > 1 {
      BestIsFirstMaximum(config, m, item, n - 1, if k < n - 1 then k else 0);
    }
  }

  /** An object is dropped for its age alone: not matched, held by no executed crop, unseen for too long. */
  predicate DroppedByAge(config: RegionConfig, scene: Scene, detections: seq<Detection>, executed: seq<Box>, i: nat)
    requires i < |MatchingOf(config, scene, detections).entries|
  {
    var m := MatchingOf(config, scene, detections);
    i !in m.matched && !Covered(executed, m.entries[i].box) && TooOld(config, scene.frameIndex, m.entries[i])
  }

  // ---------------------------------------------------------------------------------------------
  // Runs: plan, run the model on every planned crop, commit
  // ---------------------------------------------------------------------------------------------

  datatype Tick = Tick(motion: seq<RawBox>, detections: seq<Detection>)

  function TickPlan(frame: Frame, config: RegionConfig, scene: Scene, tick: Tick): RegionPlan {
    PlanOf(frame, config, scene, tick.motion)
  }

  function AfterTick(frame: Frame, config: RegionConfig, scene: Scene, tick: Tick): (r: Scene)
    ensures r.frameIndex == scene.frameIndex + 1
  {
    Committed(config, Planned(frame, config, scene, tick.motion), tick.detections,
              TickPlan(frame, config, scene, tick).regions)
  }

  /** Detections come from the planned crops and lie in the frame. */
  predicate ValidTick(frame: Frame, config: RegionConfig, scene: Scene, tick: Tick) {
    forall d | d in tick.detections ::
      InFrame(frame, d.box) && Covered(TickPlan(frame, config, scene, tick).regions, d.box)
  }

  function RunOf(frame: Frame, config: RegionConfig, ticks: seq<Tick>): Scene {
    if ticks == [] then EmptyScene
    else AfterTick(frame, config, RunOf(frame, config, ticks[..|ticks| - 1]), ticks[|ticks| - 1])
  }

  predicate ValidRun(frame: Frame, config: RegionConfig, ticks: seq<Tick>) {
    ticks == [] ||
    (&& ValidRun(frame, config, ticks[..|ticks| - 1])
     && ValidTick(frame, config, RunOf(frame, config, ticks[..|ticks| - 1]), ticks[|ticks| - 1]))
  }

  /** Frames since the last one that swept the whole frame. */
  function SinceSweep(config: RegionConfig, now: int): int
    requires config.sweepEvery > 0
  {
    (now - 1) % config.sweepEvery
  }

  /** The invariant of all runs: every cached object was inferred recently, counted two ways. */
  predicate Tended(frame: Frame, config: RegionConfig, scene: Scene) {
    && GoodScene(frame, scene)
    && forall i | 0 <= i < |scene.entries| :: Recent(config, scene.frameIndex, scene.entries[i])
  }

  predicate Recent(config: RegionConfig, now: int, e: Entry) {
    && now - e.lastInfer < Max(1, config.stationaryInterval)
    && (config.sweepEvery > 0 ==> now - e.lastInfer <= SinceSweep(config, now))
  }

  lemma RecentNextFrame(config: RegionConfig, now: nat, e: Entry)
    requires Recent(config, now, e) && !SweepFrame(config, now + 1)
    requires now + 1 - e.lastInfer < config.stationaryInterval
    ensures Recent(config, now + 1, e)
  {
    if config.sweepEvery > 0 {
      NextModulo(now, config.sweepEvery);
    }
  }

  /** In a tick, an object that no planned crop holds was carried, and stays recent. */
  lemma UncoveredIsRecent(frame: Frame, config: RegionConfig, scene: Scene, tick: Tick, i: nat)
    requires Croppable(frame) && Tended(frame, config, scene) && i < |scene.entries|
    requires !Covered(TickPlan(frame, config, scene, tick).regions, scene.entries[i].box)
    ensures SkippedAt(frame, config, scene, tick.motion, i)
    ensures Carry(Skip(scene.entries[i])) in TickPlan(frame, config, scene, tick).carried
    ensures config.stationarySkip && scene.frameIndex + 1 - scene.entries[i].lastInfer < config.stationaryInterval
    ensures Recent(config, scene.frameIndex + 1, scene.entries[i])
  {
    PlanCoversCache(frame, config, scene, tick.motion, i);
    RecentNextFrame(config, scene.frameIndex, scene.entries[i]);
  }

  lemma MultipleBounds(a: int, m: int)
    requires m > 0
    ensures a >= 1 ==> a * m >= m
    ensures a <= -1 ==> a * m <= -m
  {
  }

  lemma NextModulo(n: nat, m: int)
    requires m > 0
    ensures n % m == 0 || n % m == (n - 1) % m + 1
  {
    var q, r := (n - 1) / m, (n - 1) % m;
    assert n - 1 == q * m + r && n == n / m * m + n % m;
    if r + 1 < m {
      assert (q - n / m) * m == n % m - (r + 1);
      MultipleBounds(q - n / m, m);
    } else {
      assert (q + 1 - n / m) * m == n % m;
      MultipleBounds(q + 1 - n / m, m);
    }
  }

  /** An object matched in this frame is good and recent whatever it was before. */
  lemma JustSeenIsRecent(frame: Frame, config: RegionConfig, now: nat, detections: seq<Detection>, e: Entry)
    requires now > 0 && JustSeen(now, Dedupe(detections, config.mergeIou), e)
    requires forall d | d in detections :: InFrame(frame, d.box)
    ensures GoodEntry(frame, now, e) && Recent(config, now, e)
  {
    var found := Dedupe(detections, config.mergeIou);
    var positions := DedupeProperties(detections, config.mergeIou);
    var p :| 0 <= p < |found| && found[p] == e.payload;
    assert e.payload in detections;
  }

  lemma SurvivorIsTended(frame: Frame, config: RegionConfig, scene: Scene, tick: Tick, e: Entry)
    requires Croppable(frame) && Tended(frame, config, scene) && ValidTick(frame, config, scene, tick)
    requires e in AfterTick(frame, config, scene, tick).entries
    ensures GoodEntry(frame, scene.frameIndex + 1, e) && Recent(config, scene.frameIndex + 1, e)
  {
    var planned := Planned(frame, config, scene, tick.motion);
    var now := planned.frameIndex;
    var regions := TickPlan(frame, config, scene, tick).regions;
    var m := MatchingOf(config, planned, tick.detections);
    AbsorbFaithful(config, now, planned.entries, Dedupe(tick.detections, config.mergeIou));
    var i: nat :| i < |m.entries| && Survives(config, now, m, regions, i) && m.entries[i] == e;
    if i in m.matched {
      JustSeenIsRecent(frame, config, now, tick.detections, e);
    } else {
      UncoveredIsRecent(frame, config, scene, tick, i);
    }
  }

  lemma TickKeepsTended(frame: Frame, config: RegionConfig, scene: Scene, tick: Tick)
    requires Croppable(frame) && Tended(frame, config, scene) && ValidTick(frame, config, scene, tick)
    ensures Tended(frame, config, AfterTick(frame, config, scene, tick))
  {
    hide AfterTick;
    var after := AfterTick(frame, config, scene, tick);
    forall k | 0 <= k < |after.entries|
      ensures GoodEntry(frame, after.frameIndex, after.entries[k]) && Recent(config, after.frameIndex, after.entries[k])
    {
      SurvivorIsTended(frame, config, scene, tick, after.entries[k]);
    }
  }

  lemma {:induction false} RunKeepsTended(frame: Frame, config: RegionConfig, ticks: seq<Tick>)
    requires Croppable(frame) && ValidRun(frame, config, ticks)
    ensures Tended(frame, config, RunOf(frame, config, ticks))
    ensures RunOf(frame, config, ticks).frameIndex == |ticks|
  {
    if ticks != [] {
      var n := |ticks| - 1;
      RunKeepsTended(frame, config, ticks[..n]);
      TickKeepsTended(frame, config, RunOf(frame, config, ticks[..n]), ticks[n]);
    }
  }

  /**
    Over every run in which the planned crops all run: motion is inside a planned crop, a cached object is
    inside a planned crop or carried, and no object goes `stationary_interval` frames, or a sweep period,
    without being inferred.
   */
  lemma RunsCoverAndRecheck(frame: Frame, config: RegionConfig, ticks: seq<Tick>, next: Tick, raw: RawBox, i: nat)
    requires Croppable(frame) && ValidRun(frame, config, ticks)
    requires i < |RunOf(frame, config, ticks).entries|
    ensures var scene := RunOf(frame, config, ticks);
            var plan := TickPlan(frame, config, scene, next);
            && (raw in next.motion && ClipBox(raw, frame).Some? ==> Covered(plan.regions, ClipBox(raw, frame).value))
            && (Covered(plan.regions, scene.entries[i].box) || Carry(Skip(scene.entries[i])) in plan.carried)
            && 0 <= |ticks| - scene.entries[i].lastInfer < Max(1, config.stationaryInterval)
            && (config.sweepEvery > 0 ==> |ticks| - scene.entries[i].lastInfer < config.sweepEvery)
  {
    RunKeepsTended(frame, config, ticks);
    PlanCoversMotion(frame, config, RunOf(frame, config, ticks), next.motion, raw);
    PlanCoversCache(frame, config, RunOf(frame, config, ticks), next.motion, i);
  }

  /**
    A skipped object is never lost: in every run, every object still cached after a frame is reported in
    that frame, by its fresh detection or its carried copy, or by an overlapping detection of its class
    that scores at least as much. Nothing is reported twice.
   */
  lemma SkippedIsReported(frame: Frame, config: RegionConfig, ticks: seq<Tick>, next: Tick, e: Entry)
    requires Croppable(frame) && ValidRun(frame, config, ticks)
    requires ValidTick(frame, config, RunOf(frame, config, ticks), next)
    requires e in AfterTick(frame, config, RunOf(frame, config, ticks), next).entries
    ensures var reported := Reported(config, next.detections, TickPlan(frame, config, RunOf(frame, config, ticks), next));
            && (Represented(e.payload, reported, config.mergeIou) || Represented(Carry(e), reported, config.mergeIou))
            && Separated(reported, config.mergeIou)
  {
    var scene := RunOf(frame, config, ticks);
    var plan := TickPlan(frame, config, scene, next);
    var planned := Planned(frame, config, scene, next.motion);
    var m := MatchingOf(config, planned, next.detections);
    var found := Dedupe(next.detections, config.mergeIou);
    var positions := DedupeProperties(next.detections, config.mergeIou);
    var merged := DedupeProperties(found + plan.carried, config.mergeIou);
    RunKeepsTended(frame, config, ticks);
    AbsorbFaithful(config, planned.frameIndex, planned.entries, found);
    var i: nat :| i < |m.entries| && Survives(config, planned.frameIndex, m, plan.regions, i) && m.entries[i] == e;
    if i in m.matched {
      assert e.payload in found + plan.carried;
    } else {
      UncoveredIsRecent(frame, config, scene, next, i);
      assert e == Skip(scene.entries[i]);
      assert Carry(e) in found + plan.carried;
    }
  }
}
