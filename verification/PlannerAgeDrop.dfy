/**
  The age limit of the planner's cache (`stationary_max_age`): with which settings can an object leave the
  cache for its age alone, although every planned crop runs? Exactly with those of `OutlivesRechecks`.
 */
module PlannerAgeDrop {
  import opened RegionGeometry
  import opened RegionClusters
  import opened RegionBuild
  import opened IouDedupe
  import opened RegionPlanner
  import opened PlannerRuns

  predicate AgeDropInTick(frame: Frame, config: RegionConfig, scene: Scene, tick: Tick) {
    var planned := Planned(frame, config, scene, tick.motion);
    exists i: nat | i < |MatchingOf(config, planned, tick.detections).entries| ::
      DroppedByAge(config, planned, tick.detections, TickPlan(frame, config, scene, tick).regions, i)
  }

  /** Some run in which every planned crop runs ends with an object dropped only for its age. */
  ghost predicate AgeDropHappens(frame: Frame, config: RegionConfig) {
    exists ticks: seq<Tick>, last: Tick ::
      && ValidRun(frame, config, ticks) && ValidTick(frame, config, RunOf(frame, config, ticks), last)
      && AgeDropInTick(frame, config, RunOf(frame, config, ticks), last)
  }

  /** Skipping is on, and neither the forced re-check nor the sweep comes before the maximum age. */
  predicate OutlivesRechecks(config: RegionConfig) {
    && config.stationarySkip
    && config.stationaryMaxAge < config.stationaryInterval
    && (config.sweepEvery > 0 ==> config.stationaryMaxAge < config.sweepEvery)
  }

  /** What `RegionConfig.from_env` guarantees of the values used here. */
  predicate Clamped(config: RegionConfig) {
    && 0 <= config.sweepEvery
    && 1 <= config.stationaryThreshold
    && 1 <= config.stationaryInterval
    && 1 <= config.stationaryMaxAge
    && 0.0 <= config.stationaryIou <= 1.0
    && 0.0 <= config.matchIou <= 1.0
  }

  lemma AgeDropNeedsSetting(frame: Frame, config: RegionConfig, ticks: seq<Tick>, last: Tick)
    requires Croppable(frame) && ValidRun(frame, config, ticks)
    requires AgeDropInTick(frame, config, RunOf(frame, config, ticks), last)
    ensures OutlivesRechecks(config)
  {
    var scene := RunOf(frame, config, ticks);
    var planned := Planned(frame, config, scene, last.motion);
    var regions := TickPlan(frame, config, scene, last).regions;
    RunKeepsTended(frame, config, ticks);
    AbsorbFaithful(config, planned.frameIndex, planned.entries, Dedupe(last.detections, config.mergeIou));
    var i: nat :| i < |MatchingOf(config, planned, last.detections).entries|
                  && DroppedByAge(config, planned, last.detections, regions, i);
    UncoveredIsRecent(frame, config, scene, last, i);
  }

  // ---------------------------------------------------------------------------------------------
  // The run that shows the setting is enough: one object seen until it is stationary, then nothing
  // ---------------------------------------------------------------------------------------------

  function Thing(frame: Frame): Detection { Detection(FullFrame(frame), 0, 1.0, 0, false, 0) }

  function Seen(frame: Frame): Tick { Tick([ToRaw(FullFrame(frame))], [Thing(frame)]) }

  const Quiet := Tick([], [])

  function ThingEntry(frame: Frame, motionless: nat, seen: int, skips: nat): Entry {
    Entry(Thing(frame), FullFrame(frame), 0, motionless, seen, seen, skips)
  }

  lemma SeenPlan(frame: Frame, config: RegionConfig, scene: Scene)
    requires Croppable(frame)
    ensures Covered(MotionRegions(frame, config, Seen(frame).motion), FullFrame(frame))
    ensures Clipped(Seen(frame).motion, frame) == [FullFrame(frame)]
    ensures GoodScene(frame, scene) ==> ValidTick(frame, config, scene, Seen(frame))
  {
    var raw := ToRaw(FullFrame(frame));
    ClipOfInFrame(FullFrame(frame), frame);
    assert Clipped([raw][..0], frame) == [];
    assert Clipped([raw], frame) == [FullFrame(frame)];
    MotionRegionsCover(frame, config, [raw], FullFrame(frame));
    if GoodScene(frame, scene) {
      PlanCoversMotion(frame, config, scene, [raw], raw);
    }
  }

  /** Matching the object to an empty cache, or to the cache that holds it. */
  lemma ThingMatches(frame: Frame, config: RegionConfig, now: int, motionless: nat, seen: int, skips: nat)
    requires Croppable(frame) && Clamped(config)
    ensures Dedupe([Thing(frame)], config.mergeIou) == [Thing(frame)]
    ensures AbsorbAll(config, now, [], [Thing(frame)]) == Matching([ThingEntry(frame, 0, now, 0)], {0})
    ensures AbsorbAll(config, now, [ThingEntry(frame, motionless, seen, skips)], [Thing(frame)])
         == Matching([ThingEntry(frame, motionless + 1, now, skips)], {0})
  {
    var d, e := Thing(frame), ThingEntry(frame, motionless, seen, skips);
    SeparatedIsFixed([d], config.mergeIou);
    IouOfSelf(FullFrame(frame));
    assert [d][..0] == [];
    var empty: Matching := Matching([], {});
    assert AbsorbAll(config, now, [], []) == empty;
    assert Best(config, empty, d, 0) == (-1, 0.0);
    var one := Matching([e], {});
    assert AbsorbAll(config, now, [e], []) == one;
    assert Best(config, one, d, 0) == (-1, 0.0);
    assert Best(config, one, d, 1) == (0, 1.0);
  }

  predicate Holding(frame: Frame, scene: Scene, motionless: nat, seen: int, skips: nat) {
    scene.entries == [ThingEntry(frame, motionless, seen, skips)]
  }

  lemma SeenTick(frame: Frame, config: RegionConfig, scene: Scene, motionless: nat, seen: int)
    requires Croppable(frame) && Clamped(config)
    ensures scene.entries == [] ==>
              Holding(frame, AfterTick(frame, config, scene, Seen(frame)), 0, scene.frameIndex + 1, 0)
    ensures Holding(frame, scene, motionless, seen, 0) ==>
              Holding(frame, AfterTick(frame, config, scene, Seen(frame)), motionless + 1, scene.frameIndex + 1, 0)
  {
    hide PlanOf, MotionRegions, Clipped, AbsorbAll, Thing;
    var now := scene.frameIndex + 1;
    var planned := Planned(frame, config, scene, Seen(frame).motion);
    SeenPlan(frame, config, scene);
    ThingMatches(frame, config, now, motionless, seen, 0);
    var regions := TickPlan(frame, config, scene, Seen(frame)).regions;
    if scene.entries == [] {
      assert planned.entries == [];
      MatchedSurvives(config, now, Matching([ThingEntry(frame, 0, now, 0)], {0}), regions);
    }
    if Holding(frame, scene, motionless, seen, 0) {
      assert planned.entries == scene.entries;
      MatchedSurvives(config, now, Matching([ThingEntry(frame, motionless + 1, now, 0)], {0}), regions);
    }
  }

  lemma MatchedSurvives(config: RegionConfig, now: int, m: Matching, executed: seq<Box>)
    requires |m.entries| == 1 && m.matched == {0}
    ensures Survivors(config, now, m, executed, 1) == m.entries
  {
    assert Survivors(config, now, m, executed, 0) == [];
  }

  function Repeat(tick: Tick, n: nat): (r: seq<Tick>)
    ensures |r| == n
  {
    if n == 0 then [] else Repeat(tick, n - 1) + [tick]
  }

  lemma {:induction false} SeenRun(frame: Frame, config: RegionConfig, n: nat)
    requires Croppable(frame) && Clamped(config)
    ensures ValidRun(frame, config, Repeat(Seen(frame), n))
    ensures RunOf(frame, config, Repeat(Seen(frame), n)).frameIndex == n
    ensures n == 0 ==> RunOf(frame, config, Repeat(Seen(frame), n)) == EmptyScene
    ensures n > 0 ==> Holding(frame, RunOf(frame, config, Repeat(Seen(frame), n)), n - 1, n, 0)
  {
    if n > 0 {
      SeenRun(frame, config, n - 1);
      var ticks := Repeat(Seen(frame), n);
      assert ticks[..n - 1] == Repeat(Seen(frame), n - 1);
      var scene := RunOf(frame, config, ticks[..n - 1]);
      RunKeepsTended(frame, config, ticks[..n - 1]);
      SeenPlan(frame, config, scene);
      SeenTick(frame, config, scene, if n > 1 then n - 2 else 0, n - 1);
    }
  }

  /** A quiet frame over a stationary object: nothing is planned, the object is carried. */
  lemma QuietTick(frame: Frame, config: RegionConfig, scene: Scene, motionless: nat, seen: int, skips: nat)
    requires Croppable(frame) && Holding(frame, scene, motionless, seen, skips)
    requires config.stationarySkip && motionless >= config.stationaryThreshold
    requires scene.frameIndex + 1 - seen < config.stationaryInterval && !SweepFrame(config, scene.frameIndex + 1)
    ensures TickPlan(frame, config, scene, Quiet).regions == []
    ensures Planned(frame, config, scene, []).entries == [ThingEntry(frame, motionless, seen, skips + 1)]
    ensures Planned(frame, config, scene, []).frameIndex == scene.frameIndex + 1
  {
    hide Cap, Outermost, Sort;
    var e := scene.entries[0];
    var now := scene.frameIndex + 1;
    assert Clipped([], frame) == [] && MotionRegions(frame, config, []) == [];
    assert Skipped(config, now, [], [], e);
    assert ForcedOf(frame, config, now, [], [], scene.entries, 0) == [];
    assert ForcedOf(frame, config, now, [], [], scene.entries, 1) == [];
    assert CarriedOf(config, now, [], [], scene.entries, 0) == [];
    assert CarriedOf(config, now, [], [], scene.entries, 1) == [Carry(Skip(e))];
    assert AfterPlan(config, now, [], [], scene.entries) == [Skip(e)];
  }

  lemma QuietCommit(frame: Frame, config: RegionConfig, scene: Scene, motionless: nat, seen: int, skips: nat)
    requires Croppable(frame) && Holding(frame, scene, motionless, seen, skips)
    requires config.stationarySkip && motionless >= config.stationaryThreshold
    requires scene.frameIndex + 1 - seen < config.stationaryInterval && !SweepFrame(config, scene.frameIndex + 1)
    ensures ValidTick(frame, config, scene, Quiet)
    ensures scene.frameIndex + 1 - seen < config.stationaryMaxAge ==>
              Holding(frame, AfterTick(frame, config, scene, Quiet), motionless, seen, skips + 1)
    ensures scene.frameIndex + 1 - seen >= config.stationaryMaxAge ==> AgeDropInTick(frame, config, scene, Quiet)
  {
    hide PlanOf, Planned;
    QuietTick(frame, config, scene, motionless, seen, skips);
    var planned := Planned(frame, config, scene, []);
    SeparatedIsFixed([], config.mergeIou);
    var m := MatchingOf(config, planned, []);
    assert m == Matching(planned.entries, {});
    assert Survivors(config, planned.frameIndex, m, [], 0) == [];
    if scene.frameIndex + 1 - seen >= config.stationaryMaxAge {
      assert DroppedByAge(config, planned, [], [], 0);
    }
  }

  /** Frames spent seeing the object: enough to be stationary, ending on a sweep when there are sweeps. */
  function SeeingFrames(config: RegionConfig): (n: nat)
    requires Clamped(config)
    ensures n > config.stationaryThreshold
  {
    if config.sweepEvery > 0 then SweepMultiple(config.sweepEvery, config.stationaryThreshold) + 1
    else config.stationaryThreshold + 1
  }

  function SweepMultiple(sweepEvery: int, count: int): (r: nat)
    requires sweepEvery > 0 && count >= 0
    ensures r >= count && r % sweepEvery == 0
  {
    if count == 0 then 0
    else
      ModuloShift(SweepMultiple(sweepEvery, count - 1), sweepEvery, 0);
      SweepMultiple(sweepEvery, count - 1) + sweepEvery
  }

  lemma ModuloShift(n: int, m: int, k: int)
    requires m > 0 && n % m == 0 && 0 <= k < m
    ensures (n + m) % m == 0 && (n + k) % m == k
  {
    var q := n / m;
    MultipleBounds((n + m) / m - (q + 1), m);
    MultipleBounds((n + k) / m - q, m);
  }

  /** `k` quiet frames after the object has become stationary. */
  function QuietAfterSeeing(frame: Frame, n: nat, k: nat): (r: seq<Tick>)
    ensures |r| == n + k
  {
    if k == 0 then Repeat(Seen(frame), n) else QuietAfterSeeing(frame, n, k - 1) + [Quiet]
  }

  lemma ExtendRun(frame: Frame, config: RegionConfig, ticks: seq<Tick>, tick: Tick)
    requires ValidRun(frame, config, ticks) && ValidTick(frame, config, RunOf(frame, config, ticks), tick)
    ensures ValidRun(frame, config, ticks + [tick])
    ensures RunOf(frame, config, ticks + [tick]) == AfterTick(frame, config, RunOf(frame, config, ticks), tick)
  {
    hide ValidTick, AfterTick;
    var longer := ticks + [tick];
    assert longer[..|longer| - 1] == ticks;
  }

  lemma {:induction false} QuietRun(frame: Frame, config: RegionConfig, n: nat, k: nat)
    requires Croppable(frame) && Clamped(config) && OutlivesRechecks(config)
    requires n == SeeingFrames(config) && k < config.stationaryMaxAge
    ensures ValidRun(frame, config, QuietAfterSeeing(frame, n, k))
    ensures RunOf(frame, config, QuietAfterSeeing(frame, n, k)).frameIndex == n + k
    ensures Holding(frame, RunOf(frame, config, QuietAfterSeeing(frame, n, k)), n - 1, n, k)
  {
    hide AfterTick, ValidTick, SeeingFrames, RunOf, ValidRun;
    if k == 0 {
      SeenRun(frame, config, n);
    } else {
      var before := QuietAfterSeeing(frame, n, k - 1);
      QuietRun(frame, config, n, k - 1);
      NoSweepWhileQuiet(config, k);
      QuietCommit(frame, config, RunOf(frame, config, before), n - 1, n, k - 1);
      ExtendRun(frame, config, before, Quiet);
    }
  }

  lemma NoSweepWhileQuiet(config: RegionConfig, k: nat)
    requires Clamped(config) && OutlivesRechecks(config) && 1 <= k <= config.stationaryMaxAge
    ensures !SweepFrame(config, SeeingFrames(config) + k)
  {
    if config.sweepEvery > 0 {
      ModuloShift(SweepMultiple(config.sweepEvery, config.stationaryThreshold), config.sweepEvery, k);
    }
  }

  /**
    The exact condition. The file warns that the re-check interval must stay below the maximum age; the
    code needs that only when the sweep is off or slower than the maximum age, and when skipping is on.
   */
  lemma AgeDropExactly(frame: Frame, config: RegionConfig)
    requires Croppable(frame) && Clamped(config)
    ensures AgeDropHappens(frame, config) <==> OutlivesRechecks(config)
  {
    hide AfterTick, ValidTick, AgeDropInTick, RunOf, ValidRun;
    if AgeDropHappens(frame, config) {
      var ticks: seq<Tick>, last: Tick :|
        && ValidRun(frame, config, ticks) && ValidTick(frame, config, RunOf(frame, config, ticks), last)
        && AgeDropInTick(frame, config, RunOf(frame, config, ticks), last);
      AgeDropNeedsSetting(frame, config, ticks, last);
    }
    if OutlivesRechecks(config) {
      SettingAllowsAgeDrop(frame, config);
    }
  }

  lemma SettingAllowsAgeDrop(frame: Frame, config: RegionConfig)
    requires Croppable(frame) && Clamped(config) && OutlivesRechecks(config)
    ensures AgeDropHappens(frame, config)
  {
    hide AfterTick, ValidTick, SeeingFrames, AgeDropInTick, RunOf, ValidRun;
    var n, k := SeeingFrames(config), config.stationaryMaxAge - 1;
    var ticks := QuietAfterSeeing(frame, n, k);
    QuietRun(frame, config, n, k);
    NoSweepWhileQuiet(config, k + 1);
    QuietCommit(frame, config, RunOf(frame, config, ticks), n - 1, n, k);
    assert ValidRun(frame, config, ticks) && AgeDropInTick(frame, config, RunOf(frame, config, ticks), Quiet);
  }
}
