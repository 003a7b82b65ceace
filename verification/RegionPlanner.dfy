/**
  `MotionRegionPlanner`: per camera and per frame, where to run the model (`plan`) and what to keep of
  the previous frames (`commit`). The functions give the new scene and the answers; the class is the
  program's object, whose methods are proved to compute them.
 */
module RegionPlanner {
  import opened RegionGeometry
  import opened RegionClusters
  import opened RegionBuild
  import opened IouDedupe

  /** One cached object. */
  datatype Entry = Entry(
    payload: Detection,
    box: Box,
    classId: int,
    motionless: nat,
    lastSeen: int,
    lastInfer: int,
    skips: nat)

  datatype RegionPlan = RegionPlan(
    regions: seq<Box>,
    carried: seq<Detection>,
    sweep: bool,
    idle: bool,
    skipped: nat)

  /** The planner's fields. */
  datatype Scene = Scene(entries: seq<Entry>, frameIndex: nat, sweeps: nat, skippedTotal: nat)

  const EmptyScene := Scene([], 0, 0, 0)

  // ---------------------------------------------------------------------------------------------
  // plan
  // ---------------------------------------------------------------------------------------------

  predicate Touched(e: Entry, boxes: seq<Box>) {
    exists b :: b in boxes && Intersects(e.box, b)
  }

  predicate Due(config: RegionConfig, now: int, e: Entry) {
    now - e.lastInfer >= config.stationaryInterval
  }

  /** The object is served from the cache in frame `now`: no motion crop holds it and nothing asks to look again. */
  predicate Skipped(config: RegionConfig, now: int, regions: seq<Box>, boxes: seq<Box>, e: Entry) {
    && !Covered(regions, e.box)
    && config.stationarySkip && e.motionless >= config.stationaryThreshold
    && !Touched(e, boxes)
    && !Due(config, now, e)
  }

  function Skip(e: Entry): Entry { e.(skips := e.skips + 1) }

  /** The cached detection, marked as reused. */
  function Carry(e: Entry): Detection {
    e.payload.(stationary := true, stationaryFrames := e.skips)
  }

  function AfterPlan(config: RegionConfig, now: int, regions: seq<Box>, boxes: seq<Box>, entries: seq<Entry>)
    : (r: seq<Entry>)
  {
    seq(|entries|, i requires 0 <= i < |entries| =>
      if Skipped(config, now, regions, boxes, entries[i]) then Skip(entries[i]) else entries[i])
  }

  function CarriedOf(config: RegionConfig, now: int, regions: seq<Box>, boxes: seq<Box>, entries: seq<Entry>, n: nat)
    : seq<Detection>
    requires n <= |entries|
  {
    if n == 0 then []
    else
      var before := CarriedOf(config, now, regions, boxes, entries, n - 1);
      if Skipped(config, now, regions, boxes, entries[n - 1]) then before + [Carry(Skip(entries[n - 1]))] else before
  }

  function EntryRegion(frame: Frame, config: RegionConfig, e: Entry): Box {
    CalculateRegion(frame, e.box, config.minSize, config.margin)
  }

  function ForcedOf(frame: Frame, config: RegionConfig, now: int, regions: seq<Box>, boxes: seq<Box>,
                    entries: seq<Entry>, n: nat): (r: seq<Box>)
    requires n <= |entries|
    ensures |r| <= n
  {
    if n == 0 then []
    else
      var e := entries[n - 1];
      var before := ForcedOf(frame, config, now, regions, boxes, entries, n - 1);
      if Covered(regions, e.box) || Skipped(config, now, regions, boxes, e) then before
      else before + [EntryRegion(frame, config, e)]
  }

  function Raws(boxes: seq<Box>): (r: seq<RawBox>)
  {
    seq(|boxes|, i requires 0 <= i < |boxes| => ToRaw(boxes[i]))
  }

  /** Crops for the motion of this frame alone. */
  function MotionRegions(frame: Frame, config: RegionConfig, motion: seq<RawBox>): seq<Box> {
    Regions(frame, Raws(Clipped(motion, frame)), config)
  }

  function WithForced(frame: Frame, config: RegionConfig, regions: seq<Box>, forced: seq<Box>): seq<Box> {
    if forced == [] then regions else Sort(Cap(frame, Outermost(regions + forced), config))
  }

  predicate SweepFrame(config: RegionConfig, now: int) {
    config.sweepEvery > 0 && (now - 1) % config.sweepEvery == 0
  }

  function Finish(frame: Frame, config: RegionConfig, now: int, regions: seq<Box>, carried: seq<Detection>): RegionPlan {
    var sweep := SweepFrame(config, now);
    var swept := if sweep && FullFrame(frame) !in regions then regions + [FullFrame(frame)] else regions;
    var idle := swept == [] && carried == [] && config.idleFullFrame;
    RegionPlan(if idle then [FullFrame(frame)] else swept, carried, sweep, idle, |carried|)
  }

  /** The plan of frame `scene.frameIndex + 1`, given its motion boxes and the crops built from them. */
  function PlanWith(frame: Frame, config: RegionConfig, scene: Scene, boxes: seq<Box>, regions: seq<Box>): RegionPlan {
    var now := scene.frameIndex + 1;
    var n := |scene.entries|;
    var forced := ForcedOf(frame, config, now, regions, boxes, scene.entries, n);
    var carried := CarriedOf(config, now, regions, boxes, scene.entries, n);
    Finish(frame, config, now, WithForced(frame, config, regions, forced), carried)
  }

  function PlannedWith(frame: Frame, config: RegionConfig, scene: Scene, boxes: seq<Box>, regions: seq<Box>): Scene {
    var now := scene.frameIndex + 1;
    var plan := PlanWith(frame, config, scene, boxes, regions);
    Scene(
      AfterPlan(config, now, regions, boxes, scene.entries),
      now,
      scene.sweeps + if plan.sweep then 1 else 0,
      scene.skippedTotal + plan.skipped)
  }

  function PlanOf(frame: Frame, config: RegionConfig, scene: Scene, motion: seq<RawBox>): RegionPlan {
    PlanWith(frame, config, scene, Clipped(motion, frame), MotionRegions(frame, config, motion))
  }

  function Planned(frame: Frame, config: RegionConfig, scene: Scene, motion: seq<RawBox>): Scene {
    PlannedWith(frame, config, scene, Clipped(motion, frame), MotionRegions(frame, config, motion))
  }

  // ---------------------------------------------------------------------------------------------
  // commit
  // ---------------------------------------------------------------------------------------------

  /** Progress of matching found detections to cached objects; `matched` holds positions in `entries`. */
  datatype Matching = Matching(entries: seq<Entry>, matched: set<nat>)

  /** The best cached object among the first `n` for a detection: position (or -1) and overlap. */
  function Best(config: RegionConfig, m: Matching, item: Detection, n: nat): (r: (int, real))
    requires n <= |m.entries|
    ensures -1 <= r.0 < n && r.1 >= 0.0 && (r.0 == -1 ==> r.1 == 0.0)
    ensures r.0 >= 0 ==> r.0 !in m.matched && m.entries[r.0].classId == item.classId
                         && r.1 == Iou(m.entries[r.0].box, item.box)
  {
    if n == 0 then (-1, 0.0)
    else
      var best := Best(config, m, item, n - 1);
      var e := m.entries[n - 1];
      if n - 1 in m.matched || e.classId != item.classId then best
      else
        var iou := Iou(e.box, item.box);
        if iou >= config.matchIou && iou > best.1 then (n - 1, iou) else best
  }

  function Refresh(config: RegionConfig, now: int, e: Entry, item: Detection, iou: real): Entry {
    e.(motionless := if iou >= config.stationaryIou then e.motionless + 1 else 0,
       payload := item, box := item.box, lastSeen := now, lastInfer := now)
  }

  function Absorb(config: RegionConfig, now: int, m: Matching, item: Detection): Matching {
    var (k, iou) := Best(config, m, item, |m.entries|);
    if k >= 0 then
      Matching(m.entries[k := Refresh(config, now, m.entries[k], item, iou)], m.matched + {k})
    else
      Matching(m.entries + [Entry(item, item.box, item.classId, 0, now, now, 0)], m.matched + {|m.entries|})
  }

  function AbsorbAll(config: RegionConfig, now: int, entries: seq<Entry>, found: seq<Detection>): Matching {
    if found == [] then Matching(entries, {})
    else Absorb(config, now, AbsorbAll(config, now, entries, found[..|found| - 1]), found[|found| - 1])
  }

  /** The object was not found in this frame, no executed crop held it, and it has not been seen for too long. */
  predicate TooOld(config: RegionConfig, now: int, e: Entry) {
    now - e.lastSeen >= config.stationaryMaxAge
  }

  predicate Survives(config: RegionConfig, now: int, m: Matching, executed: seq<Box>, i: nat)
    requires i < |m.entries|
  {
    i in m.matched || (!Covered(executed, m.entries[i].box) && !TooOld(config, now, m.entries[i]))
  }

  function Survivors(config: RegionConfig, now: int, m: Matching, executed: seq<Box>, n: nat): (r: seq<Entry>)
    requires n <= |m.entries|
    ensures forall e :: e in r <==> exists i: nat | i < n && Survives(config, now, m, executed, i) :: m.entries[i] == e
  {
    if n == 0 then []
    else
      var before := Survivors(config, now, m, executed, n - 1);
      if Survives(config, now, m, executed, n - 1) then before + [m.entries[n - 1]] else before
  }

  function MatchingOf(config: RegionConfig, scene: Scene, detections: seq<Detection>): Matching {
    AbsorbAll(config, scene.frameIndex, scene.entries, Dedupe(detections, config.mergeIou))
  }

  function Committed(config: RegionConfig, scene: Scene, detections: seq<Detection>, executed: seq<Box>): Scene {
    var m := MatchingOf(config, scene, detections);
    scene.(entries := Survivors(config, scene.frameIndex, m, executed, |m.entries|))
  }

  /** What the frame reports. */
  function Reported(config: RegionConfig, detections: seq<Detection>, plan: RegionPlan): seq<Detection> {
    var found := Dedupe(detections, config.mergeIou);
    if plan.carried == [] then found else Dedupe(found + plan.carried, config.mergeIou)
  }

  // ---------------------------------------------------------------------------------------------
  // The object
  // ---------------------------------------------------------------------------------------------

  class MotionRegionPlanner {
    const config: RegionConfig
    var entries: seq<Entry>
    var frameIndex: nat
    var sweeps: nat
    var skippedTotal: nat

    function View(): Scene
      reads this
    {
      Scene(entries, frameIndex, sweeps, skippedTotal)
    }

    constructor (config: RegionConfig)
      ensures this.config == config && View() == EmptyScene
    {
      this.config := config;
      entries, frameIndex, sweeps, skippedTotal := [], 0, 0, 0;
    }

    method Reset()
      modifies this
      ensures View() == old(View()).(entries := [])
    {
      entries := [];
    }

    method ReviewEntries(frame: Frame, regions: seq<Box>, boxes: seq<Box>)
      returns (carried: seq<Detection>, forced: seq<Box>)
      modifies this`entries, this`skippedTotal
      ensures entries == AfterPlan(config, frameIndex, regions, boxes, old(entries))
      ensures carried == CarriedOf(config, frameIndex, regions, boxes, old(entries), |old(entries)|)
      ensures forced == ForcedOf(frame, config, frameIndex, regions, boxes, old(entries), |old(entries)|)
      ensures skippedTotal == old(skippedTotal) + |carried|
    {
      carried, forced := [], [];
      for i := 0 to |entries|
        invariant |entries| == |old(entries)|
        invariant forall k | 0 <= k < i :: entries[k] == AfterPlan(config, frameIndex, regions, boxes, old(entries))[k]
        invariant forall k | i <= k < |entries| :: entries[k] == old(entries)[k]
        invariant carried == CarriedOf(config, frameIndex, regions, boxes, old(entries), i)
        invariant forced == ForcedOf(frame, config, frameIndex, regions, boxes, old(entries), i)
        invariant skippedTotal == old(skippedTotal) + |carried|
      {
        var e := entries[i];
        if Covered(regions, e.box) {
          continue;
        }
        var moving := Touched(e, boxes);
        var due := Due(config, frameIndex, e);
        var stationary := config.stationarySkip && e.motionless >= config.stationaryThreshold;
        if stationary && !moving && !due {
          entries := entries[i := Skip(e)];
          skippedTotal := skippedTotal + 1;
          carried := carried + [Carry(entries[i])];
          continue;
        }
        forced := forced + [EntryRegion(frame, config, e)];
      }
    }

    method FinishPlan(frame: Frame, planned: seq<Box>, carried: seq<Detection>) returns (plan: RegionPlan)
      modifies this`sweeps
      ensures plan == Finish(frame, config, frameIndex, planned, carried)
      ensures sweeps == old(sweeps) + if plan.sweep then 1 else 0
    {
      var regions, sweep, idle := planned, false, false;
      if config.sweepEvery > 0 && (frameIndex - 1) % config.sweepEvery == 0 {
        sweep := true;
        sweeps := sweeps + 1;
        if FullFrame(frame) !in regions {
          regions := regions + [FullFrame(frame)];
        }
      }
      if regions == [] && carried == [] && config.idleFullFrame {
        idle := true;
        regions := [FullFrame(frame)];
      }
      plan := RegionPlan(regions, carried, sweep, idle, |carried|);
    }

    method AddForced(frame: Frame, regions: seq<Box>, forced: seq<Box>) returns (all: seq<Box>)
      ensures all == WithForced(frame, config, regions, forced)
    {
      if forced == [] {
        return regions;
      }
      var kept := DedupeRegions(regions + forced);
      var capped := CapRegions(frame, kept, config);
      return Sort(capped);
    }

    method PlanFrame(frame: Frame, boxes: seq<Box>, regions: seq<Box>) returns (plan: RegionPlan)
      modifies this
      ensures plan == PlanWith(frame, config, old(View()), boxes, regions)
      ensures View() == PlannedWith(frame, config, old(View()), boxes, regions)
    {
      hide WithForced;
      frameIndex := frameIndex + 1;
      var carried, forced := ReviewEntries(frame, regions, boxes);
      var all := AddForced(frame, regions, forced);
      plan := FinishPlan(frame, all, carried);
    }

    method Plan(frame: Frame, motion: seq<RawBox>) returns (plan: RegionPlan)
      modifies this
      ensures plan == PlanOf(frame, config, old(View()), motion)
      ensures View() == Planned(frame, config, old(View()), motion)
    {
      var boxes := ClipBoxes(motion, frame);
      var regions := BuildRegions(frame, Raws(boxes), config);
      plan := PlanFrame(frame, boxes, regions);
    }

    method MatchOne(item: Detection, matched: set<nat>) returns (k: int, iou: real)
      ensures (k, iou) == Best(config, Matching(entries, matched), item, |entries|)
    {
      k, iou := -1, 0.0;
      for i := 0 to |entries|
        invariant (k, iou) == Best(config, Matching(entries, matched), item, i)
      {
        if i in matched || entries[i].classId != item.classId {
          continue;
        }
        var overlap := Iou(entries[i].box, item.box);
        if overlap >= config.matchIou && overlap > iou {
          k, iou := i, overlap;
        }
      }
    }

    method MatchAll(found: seq<Detection>) returns (matched: set<nat>)
      modifies this`entries
      ensures Matching(entries, matched) == AbsorbAll(config, frameIndex, old(entries), found)
    {
      matched := {};
      for p := 0 to |found|
        invariant Matching(entries, matched) == AbsorbAll(config, frameIndex, old(entries), found[..p])
      {
        assert found[..p + 1][..p] == found[..p];
        var item := found[p];
        var k, iou := MatchOne(item, matched);
        if k >= 0 {
          matched := matched + {k};
          entries := entries[k := Refresh(config, frameIndex, entries[k], item, iou)];
        } else {
          entries := entries + [Entry(item, item.box, item.classId, 0, frameIndex, frameIndex, 0)];
          matched := matched + {|entries| - 1};
        }
      }
      assert found[..|found|] == found;
    }

    method Commit(detections: seq<Detection>, plan: RegionPlan, executed: seq<Box>) returns (reported: seq<Detection>)
      modifies this
      ensures View() == Committed(config, old(View()), detections, executed)
      ensures reported == Reported(config, detections, plan)
    {
      var found := DedupeByIou(detections, config.mergeIou);
      var matched := MatchAll(found);
      ghost var m := Matching(entries, matched);
      var survivors: seq<Entry> := [];
      for i := 0 to |entries|
        invariant survivors == Survivors(config, frameIndex, m, executed, i)
        invariant entries == m.entries
      {
        if i in matched {
          survivors := survivors + [entries[i]];
          continue;
        }
        if Covered(executed, entries[i].box) {
          continue;
        }
        if frameIndex - entries[i].lastSeen >= config.stationaryMaxAge {
          continue;
        }
        survivors := survivors + [entries[i]];
      }
      entries := survivors;
      if plan.carried == [] {
        return found;
      }
      reported := DedupeByIou(found + plan.carried, config.mergeIou);
    }
  }
}
