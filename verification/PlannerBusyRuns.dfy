/**
  Runs in which crops may be busy: any part of a plan may go unexecuted, in any frame. Motion and cached
  objects stay planned for, but the age limit can now take an object under every setting.
 */
module PlannerBusyRuns {
  import opened RegionGeometry
  import opened RegionClusters
  import opened RegionBuild
  import opened IouDedupe
  import opened RegionPlanner
  import opened PlannerRuns
  import opened PlannerAgeDrop
  import opened ObjectDetector

  /** One frame, and the crops of its plan that were really executed. */
  datatype BusyTick = BusyTick(tick: Tick, executed: seq<Box>)

  function AfterBusy(frame: Frame, config: RegionConfig, scene: Scene, t: BusyTick): (r: Scene)
    ensures r.frameIndex == scene.frameIndex + 1
  {
    Committed(config, Planned(frame, config, scene, t.tick.motion), t.tick.detections, t.executed)
  }

  /** What is executed was planned, and what is detected lies in the frame, inside something executed. */
  predicate ValidBusy(frame: Frame, config: RegionConfig, scene: Scene, t: BusyTick) {
    && (forall r | r in t.executed :: r in TickPlan(frame, config, scene, t.tick).regions)
    && forall d | d in t.tick.detections :: InFrame(frame, d.box) && Covered(t.executed, d.box)
  }

  function BusyRunOf(frame: Frame, config: RegionConfig, ticks: seq<BusyTick>): Scene {
    if ticks == [] then EmptyScene
    else AfterBusy(frame, config, BusyRunOf(frame, config, ticks[..|ticks| - 1]), ticks[|ticks| - 1])
  }

  predicate ValidBusyRun(frame: Frame, config: RegionConfig, ticks: seq<BusyTick>) {
    ticks == [] ||
    (&& ValidBusyRun(frame, config, ticks[..|ticks| - 1])
     && ValidBusy(frame, config, BusyRunOf(frame, config, ticks[..|ticks| - 1]), ticks[|ticks| - 1]))
  }

  /** These runs are the detector's runs, whatever the pool and the model do. */
  lemma CallIsBusyTick(frame: Frame, profile: Profile, config: RegionConfig, scene: Scene, motion: seq<RawBox>, outcomes: seq<Outcome>)
    requires Croppable(frame) && GoodScene(frame, scene) && profile.inputSize > 0
    requires |outcomes| == |PlanOf(frame, config, scene, motion).regions|
    ensures var regions := PlanOf(frame, config, scene, motion).regions;
            var found := FoundOf(frame, profile, regions, outcomes, |regions|);
            ValidBusy(frame, config, scene, BusyTick(Tick(motion, found), ExecutedOf(frame, regions, outcomes, |regions|)))
  {
    hide FoundOf, ExecutedOf, PlanOf;
    var regions := PlanOf(frame, config, scene, motion).regions;
    var found := FoundOf(frame, profile, regions, outcomes, |regions|);
    var executed := ExecutedOf(frame, regions, outcomes, |regions|);
    PlanCoversMotion(frame, config, scene, motion, ToRaw(FullFrame(frame)));
    forall r | r in executed
      ensures r in regions
    {
      ExecutedWereInferred(frame, regions, outcomes, |regions|, r);
    }
    forall d | d in found
      ensures InFrame(frame, d.box) && Covered(executed, d.box)
    {
      FoundInExecuted(frame, profile, regions, outcomes, |regions|, d);
    }
  }

  lemma BusySurvivorIsGood(frame: Frame, config: RegionConfig, scene: Scene, t: BusyTick, e: Entry)
    requires GoodScene(frame, scene) && ValidBusy(frame, config, scene, t)
    requires e in AfterBusy(frame, config, scene, t).entries
    ensures GoodEntry(frame, scene.frameIndex + 1, e)
  {
    hide PlanOf;
    var planned := Planned(frame, config, scene, t.tick.motion);
    var now := planned.frameIndex;
    var m := MatchingOf(config, planned, t.tick.detections);
    AbsorbFaithful(config, now, planned.entries, Dedupe(t.tick.detections, config.mergeIou));
    var i: nat :| i < |m.entries| && Survives(config, now, m, t.executed, i) && m.entries[i] == e;
    if i in m.matched {
      var positions := DedupeProperties(t.tick.detections, config.mergeIou);
      var found := Dedupe(t.tick.detections, config.mergeIou);
      var p :| 0 <= p < |found| && found[p] == e.payload;
      assert e.payload in t.tick.detections;
    }
  }

  lemma {:induction false} BusyRunIsGood(frame: Frame, config: RegionConfig, ticks: seq<BusyTick>)
    requires ValidBusyRun(frame, config, ticks)
    ensures GoodScene(frame, BusyRunOf(frame, config, ticks))
    ensures BusyRunOf(frame, config, ticks).frameIndex == |ticks|
  {
    hide AfterBusy, ValidBusy;
    if ticks != [] {
      var n := |ticks| - 1;
      var scene := BusyRunOf(frame, config, ticks[..n]);
      BusyRunIsGood(frame, config, ticks[..n]);
      var after := AfterBusy(frame, config, scene, ticks[n]);
      forall i | 0 <= i < |after.entries|
        ensures GoodEntry(frame, after.frameIndex, after.entries[i])
      {
        BusySurvivorIsGood(frame, config, scene, ticks[n], after.entries[i]);
      }
    }
  }

  /**
    Over every run, however many crops were busy: motion is inside a planned crop, a cached object is inside a
    planned crop or carried, and it leaves only matched no more, through an executed crop that held it, or after
    `stationary_max_age` frames in which it was not seen.
   */
  lemma BusyRunsCover(frame: Frame, config: RegionConfig, ticks: seq<BusyTick>, next: BusyTick, raw: RawBox, i: nat)
    requires Croppable(frame) && ValidBusyRun(frame, config, ticks)
    requires i < |BusyRunOf(frame, config, ticks).entries|
    ensures var scene := BusyRunOf(frame, config, ticks);
            var plan, e := TickPlan(frame, config, scene, next.tick), scene.entries[i];
            var planned := Planned(frame, config, scene, next.tick.motion);
            && (raw in next.tick.motion && ClipBox(raw, frame).Some? ==> Covered(plan.regions, ClipBox(raw, frame).value))
            && (Covered(plan.regions, e.box) || Carry(Skip(e)) in plan.carried)
            && (i in MatchingOf(config, planned, next.tick.detections).matched
                || planned.entries[i] in AfterBusy(frame, config, scene, next).entries
                || Covered(next.executed, e.box)
                || |ticks| + 1 - e.lastSeen >= config.stationaryMaxAge)
  {
    hide PlanOf, ValidBusyRun;
    var scene := BusyRunOf(frame, config, ticks);
    BusyRunIsGood(frame, config, ticks);
    PlanCoversMotion(frame, config, scene, next.tick.motion, raw);
    PlanCoversCache(frame, config, scene, next.tick.motion, i);
    var planned := Planned(frame, config, scene, next.tick.motion);
    var m := MatchingOf(config, planned, next.tick.detections);
    AbsorbFaithful(config, planned.frameIndex, planned.entries, Dedupe(next.tick.detections, config.mergeIou));
    if Survives(config, planned.frameIndex, m, next.executed, i) {
      assert m.entries[i] in AfterBusy(frame, config, scene, next).entries;
    }
  }

  // ---------------------------------------------------------------------------------------------
  // A busy pool and the age limit
  // ---------------------------------------------------------------------------------------------

  /** In the frame after the scene an object is dropped only for its age. */
  predicate AgeDropInBusy(frame: Frame, config: RegionConfig, scene: Scene, t: BusyTick) {
    var planned := Planned(frame, config, scene, t.tick.motion);
    exists i: nat | i < |MatchingOf(config, planned, t.tick.detections).entries| ::
      DroppedByAge(config, planned, t.tick.detections, t.executed, i)
  }

  ghost predicate BusyAgeDropHappens(frame: Frame, config: RegionConfig) {
    exists ticks: seq<BusyTick>, last: BusyTick ::
      && ValidBusyRun(frame, config, ticks) && ValidBusy(frame, config, BusyRunOf(frame, config, ticks), last)
      && AgeDropInBusy(frame, config, BusyRunOf(frame, config, ticks), last)
  }

  /** A frame without motion whose crops were all busy. */
  const AllBusy := BusyTick(Quiet, [])

  /** One object, last seen in frame `seen`. */
  predicate Alone(scene: Scene, seen: int) { |scene.entries| == 1 && scene.entries[0].lastSeen == seen }

  lemma BusyFrame(frame: Frame, config: RegionConfig, scene: Scene, seen: int)
    requires Alone(scene, seen)
    ensures ValidBusy(frame, config, scene, AllBusy)
    ensures if scene.frameIndex + 1 - seen < config.stationaryMaxAge
            then Alone(AfterBusy(frame, config, scene, AllBusy), seen) else AgeDropInBusy(frame, config, scene, AllBusy)
  {
    hide PlanOf, MotionRegions, Clipped, Skipped;
    var planned := Planned(frame, config, scene, []);
    SeparatedIsFixed([], config.mergeIou);
    var m := MatchingOf(config, planned, []);
    assert m == Matching(planned.entries, {});
    assert Survivors(config, planned.frameIndex, m, [], 0) == [];
    if scene.frameIndex + 1 - seen >= config.stationaryMaxAge {
      assert DroppedByAge(config, planned, [], [], 0);
    }
  }

  /** The object is seen in the first frame; then `k` frames find every crop busy. */
  function SeenThenBusy(frame: Frame, config: RegionConfig, k: nat): seq<BusyTick> {
    if k == 0 then [BusyTick(Seen(frame), TickPlan(frame, config, EmptyScene, Seen(frame)).regions)]
    else SeenThenBusy(frame, config, k - 1) + [AllBusy]
  }

  lemma {:induction false} BusyFramesHold(frame: Frame, config: RegionConfig, k: nat)
    requires Croppable(frame) && Clamped(config) && k < config.stationaryMaxAge
    ensures ValidBusyRun(frame, config, SeenThenBusy(frame, config, k))
    ensures Alone(BusyRunOf(frame, config, SeenThenBusy(frame, config, k)), 1)
    ensures BusyRunOf(frame, config, SeenThenBusy(frame, config, k)).frameIndex == k + 1
  {
    hide AfterBusy, ValidBusy, PlanOf;
    var ticks := SeenThenBusy(frame, config, k);
    if k == 0 {
      assert ticks[..0] == [];
      FirstFrame(frame, config);
    } else {
      BusyFramesHold(frame, config, k - 1);
      assert ticks[..|ticks| - 1] == SeenThenBusy(frame, config, k - 1);
      BusyFrame(frame, config, BusyRunOf(frame, config, SeenThenBusy(frame, config, k - 1)), 1);
    }
  }

  lemma FirstFrame(frame: Frame, config: RegionConfig)
    requires Croppable(frame) && Clamped(config)
    ensures var first := SeenThenBusy(frame, config, 0)[0];
            ValidBusy(frame, config, EmptyScene, first) && Alone(AfterBusy(frame, config, EmptyScene, first), 1)
  {
    hide PlanOf;
    SeenPlan(frame, config, EmptyScene);
    SeenTick(frame, config, EmptyScene, 0, 0);
  }

  /** With a busy pool the age limit can take an object under every setting, and on every frame that can be cropped. */
  lemma BusyAgeDropAlways(frame: Frame, config: RegionConfig)
    requires Croppable(frame) && Clamped(config)
    ensures BusyAgeDropHappens(frame, config)
  {
    hide AfterBusy, ValidBusy, AgeDropInBusy, ValidBusyRun, BusyRunOf, SeenThenBusy;
    var k := config.stationaryMaxAge - 1;
    var ticks := SeenThenBusy(frame, config, k);
    BusyFramesHold(frame, config, k);
    BusyFrame(frame, config, BusyRunOf(frame, config, ticks), 1);
  }
}
