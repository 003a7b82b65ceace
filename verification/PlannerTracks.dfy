/**
  What the planner's numbers mean. A cached object has a track, the detections it was matched to; its counters are
  facts about the track, and so is when it is served from the cache. The rules of a frame are written out first.
 */
module PlannerTracks {
  import opened Numbers
  import opened RegionGeometry
  import opened RegionClusters
  import opened RegionBuild
  import opened IouDedupe
  import opened RegionPlanner
  import opened PlannerRuns
  import opened PlannerBusyRuns

  // ---------------------------------------------------------------------------------------------
  // One plan, written out
  // ---------------------------------------------------------------------------------------------

  predicate HeldByNone(regions: seq<Box>, b: Box) { forall r | r in regions :: !Inside(r, b) }

  /** No motion crop holds the object, it has stood still long enough, nothing moves at it, and it was looked at lately. */
  predicate Served(config: RegionConfig, now: int, regions: seq<Box>, boxes: seq<Box>, e: Entry) {
    && HeldByNone(regions, e.box)
    && config.stationarySkip && e.motionless >= config.stationaryThreshold
    && (forall b | b in boxes :: e.box.x2 < b.x1 || b.x2 < e.box.x1 || e.box.y2 < b.y1 || b.y2 < e.box.y1)
    && now - e.lastInfer < config.stationaryInterval
  }

  lemma ServedExactly(config: RegionConfig, now: int, regions: seq<Box>, boxes: seq<Box>, e: Entry)
    ensures Skipped(config, now, regions, boxes, e) <==> Served(config, now, regions, boxes, e)
  {
  }

  /** Positions in ascending order, all below `n`. */
  predicate Ascending(at: seq<nat>, n: nat) {
    (forall p | 0 <= p < |at| :: at[p] < n) && forall p, q | 0 <= p < q < |at| :: at[p] < at[q]
  }

  /** The carried detections are those of the objects served from the cache, in order, marked with the skips so far. */
  lemma {:induction false} CarriedExactly(config: RegionConfig, now: int, regions: seq<Box>, boxes: seq<Box>,
                                          entries: seq<Entry>, n: nat) returns (at: seq<nat>)
    requires n <= |entries|
    ensures Ascending(at, n) && forall i: nat | i < n :: i in at <==> Served(config, now, regions, boxes, entries[i])
    ensures var carried := CarriedOf(config, now, regions, boxes, entries, n);
            && |carried| == |at|
            && forall p | 0 <= p < |at| ::
                 carried[p] == entries[at[p]].payload.(stationary := true, stationaryFrames := entries[at[p]].skips + 1)
  {
    hide Skipped, Served;
    at := [];
    if n > 0 {
      at := CarriedExactly(config, now, regions, boxes, entries, n - 1);
      ServedExactly(config, now, regions, boxes, entries[n - 1]);
      if Skipped(config, now, regions, boxes, entries[n - 1]) {
        at := at + [n - 1];
      }
    }
  }

  /** The forced crops are the crops, with the configured margin, of the objects neither held by a motion crop nor served. */
  lemma {:induction false} ForcedExactly(frame: Frame, config: RegionConfig, now: int, regions: seq<Box>, boxes: seq<Box>,
                                         entries: seq<Entry>, n: nat) returns (at: seq<nat>)
    requires n <= |entries| && forall k | 0 <= k < n :: InFrame(frame, entries[k].box)
    ensures Ascending(at, n)
    ensures forall i: nat | i < n ::
              i in at <==> HeldByNone(regions, entries[i].box) && !Served(config, now, regions, boxes, entries[i])
    ensures var forced := ForcedOf(frame, config, now, regions, boxes, entries, n);
            && |forced| == |at|
            && forall p | 0 <= p < |at| :: CropOf(frame, entries[at[p]].box, config.minSize, config.margin, forced[p])
  {
    hide Skipped, Served, CropOf, CalculateRegion, InFrame;
    at := [];
    if n > 0 {
      var e := entries[n - 1];
      at := ForcedExactly(frame, config, now, regions, boxes, entries, n - 1);
      ServedExactly(config, now, regions, boxes, e);
      CropExactly(frame, e.box, config.minSize, config.margin);
      if !Covered(regions, e.box) && !Skipped(config, now, regions, boxes, e) {
        at := at + [n - 1];
      }
    }
  }

  lemma MotionRegionsExactly(frame: Frame, config: RegionConfig, motion: seq<RawBox>)
    requires Croppable(frame)
    ensures MotionRegions(frame, config, motion) == CropsOf(frame, Clipped(motion, frame), config)
  {
    ClippedInFrame(motion, frame);
    ClippedTwice(frame, Clipped(motion, frame));
  }

  /**
    The regions of a plan: those for motion, if nothing is forced; otherwise the outermost of both, fused while there
    are too many; the whole frame as well on a sweep, and alone on an idle frame.
   */
  lemma PlanExactly(frame: Frame, config: RegionConfig, scene: Scene, motion: seq<RawBox>)
      returns (forced: seq<Box>, base: seq<Box>, chain: seq<seq<Box>>)
    requires Croppable(frame) && GoodScene(frame, scene)
    ensures var boxes, regions := Clipped(motion, frame), MotionRegions(frame, config, motion);
            forced == ForcedOf(frame, config, scene.frameIndex + 1, regions, boxes, scene.entries, |scene.entries|)
    ensures forced == [] ==> base == MotionRegions(frame, config, motion)
    ensures forced != [] ==>
              && chain != [] && OutermostOf(MotionRegions(frame, config, motion) + forced, chain[0])
              && Fusions(frame, config, chain, 1001) && base == Sort(chain[|chain| - 1])
    ensures var plan := PlanOf(frame, config, scene, motion);
            var whole := Box(0, 0, frame.width, frame.height);
            && (plan.sweep <==> config.sweepEvery > 0 && scene.frameIndex % config.sweepEvery == 0)
            && (plan.idle <==> base == [] && !plan.sweep && plan.carried == [] && config.idleFullFrame)
            && plan.regions == (if plan.idle then [whole] else if plan.sweep && whole !in base then base + [whole] else base)
            && plan.skipped == |plan.carried|
  {
    hide MotionRegions, ForcedOf, CarriedOf, OutermostOf, Fusions, CapFrom, Outermost;
    var now, n := scene.frameIndex + 1, |scene.entries|;
    var boxes, regions := Clipped(motion, frame), MotionRegions(frame, config, motion);
    MotionRegionsCover(frame, config, motion, FullFrame(frame));
    forced := ForcedOf(frame, config, now, regions, boxes, scene.entries, n);
    ForcedInFrame(frame, config, now, regions, boxes, scene.entries);
    base := WithForced(frame, config, regions, forced);
    chain := [];
    if forced != [] {
      assert forall r | r in regions + forced :: InFrame(frame, r);
      chain := FinishedExactly(frame, regions + forced, config);
    }
    var carried := CarriedOf(config, now, regions, boxes, scene.entries, n);
    FinishExactly(frame, config, now, base, carried);
  }

  lemma FinishExactly(frame: Frame, config: RegionConfig, now: nat, base: seq<Box>, carried: seq<Detection>)
    requires now > 0
    ensures var plan := Finish(frame, config, now, base, carried);
            var whole := Box(0, 0, frame.width, frame.height);
            && (plan.sweep <==> config.sweepEvery > 0 && (now - 1) % config.sweepEvery == 0)
            && (plan.idle <==> base == [] && !plan.sweep && carried == [] && config.idleFullFrame)
            && plan.regions == (if plan.idle then [whole] else if plan.sweep && whole !in base then base + [whole] else base)
            && plan.skipped == |plan.carried| && plan.carried == carried
  {
  }

  /** A plan leaves the cache as it is but for one more skip of each object served, and counts frame, sweep and skips. */
  lemma PlannedExactly(frame: Frame, config: RegionConfig, scene: Scene, motion: seq<RawBox>)
    ensures var after, plan := Planned(frame, config, scene, motion), PlanOf(frame, config, scene, motion);
            var boxes, regions := Clipped(motion, frame), MotionRegions(frame, config, motion);
            && after.frameIndex == scene.frameIndex + 1
            && after.sweeps == scene.sweeps + (if plan.sweep then 1 else 0)
            && after.skippedTotal == scene.skippedTotal + |plan.carried|
            && |after.entries| == |scene.entries|
            && forall i | 0 <= i < |scene.entries| ::
                 after.entries[i] == if Served(config, scene.frameIndex + 1, regions, boxes, scene.entries[i])
                                     then scene.entries[i].(skips := scene.entries[i].skips + 1) else scene.entries[i]
  {
    hide MotionRegions, WithForced, Skipped, Served, ForcedOf, CarriedOf, Clipped;
    var boxes, regions := Clipped(motion, frame), MotionRegions(frame, config, motion);
    forall i | 0 <= i < |scene.entries|
      ensures Skipped(config, scene.frameIndex + 1, regions, boxes, scene.entries[i]) <==>
              Served(config, scene.frameIndex + 1, regions, boxes, scene.entries[i])
    {
      ServedExactly(config, scene.frameIndex + 1, regions, boxes, scene.entries[i]);
    }
  }

  // ---------------------------------------------------------------------------------------------
  // One commit, written out
  // ---------------------------------------------------------------------------------------------

  /** The detection the object took: same class, enough overlap; the count goes on only if it stood in place. */
  predicate SeenAgainAs(config: RegionConfig, now: int, was: Entry, e: Entry, d: Detection) {
    && d.classId == was.classId && Iou(was.box, d.box) >= config.matchIou && Iou(was.box, d.box) > 0.0
    && e == Entry(d, d.box, was.classId,
                     if Iou(was.box, d.box) >= config.stationaryIou then was.motionless + 1 else 0, now, now, was.skips)
  }

  predicate FirstSeenAs(now: int, e: Entry, d: Detection) {
    e == Entry(d, d.box, d.classId, 0, now, now, 0)
  }

  /** What matching leaves at each position of the cache: the object as it was, seen again, or first seen. */
  predicate Absorbed(config: RegionConfig, now: int, before: seq<Entry>, found: seq<Detection>, m: Matching, k: nat)
    requires k < |m.entries|
  {
    if k !in m.matched then k < |before| && m.entries[k] == before[k]
    else if k < |before| then exists d :: d in found && SeenAgainAs(config, now, before[k], m.entries[k], d)
    else exists d :: d in found && FirstSeenAs(now, m.entries[k], d)
  }

  lemma AbsorbedByMore(config: RegionConfig, now: int, before: seq<Entry>, found: seq<Detection>, more: seq<Detection>,
                       m: Matching, k: nat)
    requires k < |m.entries| && Absorbed(config, now, before, found, m, k) && forall d | d in found :: d in more
    ensures Absorbed(config, now, before, more, m, k)
  {
    hide SeenAgainAs;
  }

  lemma AbsorbOne(config: RegionConfig, now: int, before: seq<Entry>, found: seq<Detection>, m: Matching, item: Detection, k: nat)
    requires (forall j: nat | j < |m.entries| :: Absorbed(config, now, before, found, m, j)) && |before| <= |m.entries|
    requires item in found
    requires k < |Absorb(config, now, m, item).entries|
    ensures Absorbed(config, now, before, found, Absorb(config, now, m, item), k)
  {
    hide Iou, Best;
    var after := Absorb(config, now, m, item);
    var (best, iou) := Best(config, m, item, |m.entries|);
    if best >= 0 {
      EligibleBest(config, m, item);
    }
    if best >= 0 && k == best {
      assert Absorbed(config, now, before, found, m, k);
      assert SeenAgainAs(config, now, before[k], after.entries[k], item);
    } else if k == |m.entries| {
      assert FirstSeenAs(now, after.entries[k], item);
    } else {
      assert Absorbed(config, now, before, found, m, k);
    }
  }

  lemma EligibleBest(config: RegionConfig, m: Matching, item: Detection)
    requires Best(config, m, item, |m.entries|).0 >= 0
    ensures var (best, iou) := Best(config, m, item, |m.entries|);
            && Eligible(config, m, item, best) && iou == Iou(m.entries[best].box, item.box)
  {
    BestIsFirstMaximum(config, m, item, |m.entries|, 0);
  }

  /** Matching all detections of a frame, position by position. */
  lemma {:induction false} AbsorbExactly(config: RegionConfig, now: int, before: seq<Entry>, found: seq<Detection>)
    ensures var m := AbsorbAll(config, now, before, found);
            && |before| <= |m.entries|
            && forall k: nat | k < |m.entries| :: Absorbed(config, now, before, found, m, k)
  {
    hide Absorbed, Absorb;
    if found == [] {
      AbsorbNone(config, now, before);
    } else {
      var n := |found| - 1;
      var m, after := AbsorbAll(config, now, before, found[..n]), AbsorbAll(config, now, before, found);
      AbsorbExactly(config, now, before, found[..n]);
      AbsorbGrows(config, now, m, found[n]);
      forall j: nat | j < |m.entries|
        ensures Absorbed(config, now, before, found, m, j)
      {
        AbsorbedByMore(config, now, before, found[..n], found, m, j);
      }
      forall k: nat | k < |after.entries|
        ensures Absorbed(config, now, before, found, after, k)
      {
        AbsorbOne(config, now, before, found, m, found[n], k);
      }
    }
  }

  lemma AbsorbNone(config: RegionConfig, now: int, before: seq<Entry>)
    ensures forall k: nat | k < |before| :: Absorbed(config, now, before, [], Matching(before, {}), k)
  {
  }

  lemma AbsorbGrows(config: RegionConfig, now: int, m: Matching, item: Detection)
    ensures |m.entries| <= |Absorb(config, now, m, item).entries|
  {
  }

  /**
    A commit keeps exactly the objects matched, and those that no executed crop held and that were seen less than the
    maximum age ago; in their order, as matching left them.
   */
  lemma CommitKeepsExactly(config: RegionConfig, scene: Scene, detections: seq<Detection>, executed: seq<Box>)
      returns (at: seq<nat>)
    ensures var m, after := MatchingOf(config, scene, detections), Committed(config, scene, detections, executed);
            && after == scene.(entries := after.entries)
            && Ascending(at, |m.entries|) && |at| == |after.entries|
            && (forall p | 0 <= p < |at| :: after.entries[p] == m.entries[at[p]])
            && forall i: nat | i < |m.entries| ::
                 i in at <==> i in m.matched || (HeldByNone(executed, m.entries[i].box)
                                                 && scene.frameIndex - m.entries[i].lastSeen < config.stationaryMaxAge)
  {
    hide MatchingOf;
    var m := MatchingOf(config, scene, detections);
    at := SurvivorsExactly(config, scene.frameIndex, m, executed, |m.entries|);
  }

  lemma {:induction false} SurvivorsExactly(config: RegionConfig, now: int, m: Matching, executed: seq<Box>, n: nat)
      returns (at: seq<nat>)
    requires n <= |m.entries|
    ensures Ascending(at, n) && |at| == |Survivors(config, now, m, executed, n)|
    ensures forall p | 0 <= p < |at| :: Survivors(config, now, m, executed, n)[p] == m.entries[at[p]]
    ensures forall i: nat | i < n ::
              i in at <==> i in m.matched || (HeldByNone(executed, m.entries[i].box) && now - m.entries[i].lastSeen < config.stationaryMaxAge)
  {
    at := [];
    if n > 0 {
      at := SurvivorsExactly(config, now, m, executed, n - 1);
      if Survives(config, now, m, executed, n - 1) {
        at := at + [n - 1];
      }
    }
  }

  /**
    A frame reports detections and carried copies, nothing twice. Every detection left after merging and every carried
    copy is represented, and without carried copies the merged detections are the report.
   */
  lemma ReportedExactly(config: RegionConfig, detections: seq<Detection>, plan: RegionPlan, d: Detection)
    ensures var reported, found := Reported(config, detections, plan), Dedupe(detections, config.mergeIou);
            && (d in reported ==> d in detections || d in plan.carried)
            && (d in detections ==> Represented(d, found, config.mergeIou))
            && (d in found || d in plan.carried ==> Represented(d, reported, config.mergeIou))
            && (plan.carried == [] ==> reported == found)
            && Separated(reported, config.mergeIou)
  {
    hide Represented, Separated, Dedupe;
    var found := Dedupe(detections, config.mergeIou);
    var first := DedupeProperties(detections, config.mergeIou);
    var second := DedupeProperties(found + plan.carried, config.mergeIou);
    if d in found {
      var p :| 0 <= p < |found| && found[p] == d;
      assert detections[first[p]] == d;
      ListedIsRepresented(d, found, config.mergeIou);
    }
    var merged := Dedupe(found + plan.carried, config.mergeIou);
    if d in merged {
      var p :| 0 <= p < |merged| && merged[p] == d;
      assert (found + plan.carried)[second[p]] == d;
    }
  }

  lemma ListedIsRepresented(d: Detection, list: seq<Detection>, threshold: real)
    requires d in list
    ensures Represented(d, list, threshold)
  {
  }

  // ---------------------------------------------------------------------------------------------
  // Tracks
  // ---------------------------------------------------------------------------------------------

  /** A detection, and the frame it was made in. */
  datatype Sighting = Sighting(frame: nat, seen: Detection)

  /** Detections of the run, each of the same class as the one before and overlapping it enough. */
  predicate ValidTrack(config: RegionConfig, ticks: seq<BusyTick>, track: seq<Sighting>) {
    && track != []
    && (forall k | 0 <= k < |track| :: SeenIn(config, ticks, track[k]))
    && forall k | 0 < k < |track| :: FollowsOn(config, track[k - 1], track[k])
  }

  predicate SeenIn(config: RegionConfig, ticks: seq<BusyTick>, s: Sighting) {
    1 <= s.frame <= |ticks| && s.seen in Dedupe(ticks[s.frame - 1].tick.detections, config.mergeIou)
  }

  predicate FollowsOn(config: RegionConfig, a: Sighting, b: Sighting) {
    && a.frame < b.frame && a.seen.classId == b.seen.classId
    && Iou(a.seen.box, b.seen.box) >= config.matchIou && Iou(a.seen.box, b.seen.box) > 0.0
  }

  /** Sighting `k` was in the place of the sighting before it. */
  predicate InPlace(config: RegionConfig, track: seq<Sighting>, k: nat)
    requires 0 < k < |track|
  {
    Iou(track[k - 1].seen.box, track[k].seen.box) >= config.stationaryIou
  }

  /** The last `count` sightings, and no more, were each in the place of the one before. */
  predicate StoodStillFor(config: RegionConfig, track: seq<Sighting>, count: nat) {
    && count < |track|
    && (forall k | |track| - count <= k < |track| :: InPlace(config, track, k))
    && (count + 1 < |track| ==> !InPlace(config, track, |track| - count - 1))
  }

  /** What is stored of an object is what its track says. */
  predicate Tells(config: RegionConfig, track: seq<Sighting>, e: Entry)
    requires track != []
  {
    var last := track[|track| - 1];
    && e.payload == last.seen && e.box == last.seen.box && e.classId == last.seen.classId
    && e.lastSeen == last.frame && e.lastInfer == last.frame
    && StoodStillFor(config, track, e.motionless)
  }

  lemma TrackGoesOn(config: RegionConfig, ticks: seq<BusyTick>, tick: BusyTick, track: seq<Sighting>)
    requires ValidTrack(config, ticks, track)
    ensures ValidTrack(config, ticks + [tick], track)
  {
    hide Dedupe, FollowsOn;
    forall k | 0 <= k < |track|
      ensures SeenIn(config, ticks + [tick], track[k])
    {
      assert SeenIn(config, ticks, track[k]);
    }
  }

  /** One more sighting: the count goes on in place, and starts again at 0 otherwise. */
  lemma TrackGrows(config: RegionConfig, ticks: seq<BusyTick>, tick: BusyTick, track: seq<Sighting>, was: Entry, e: Entry, d: Detection)
      returns (longer: seq<Sighting>)
    requires ValidTrack(config, ticks, track) && Tells(config, track, was)
    requires d in Dedupe(tick.tick.detections, config.mergeIou)
    requires SeenAgainAs(config, |ticks| + 1, was, e, d)
    ensures ValidTrack(config, ticks + [tick], longer) && Tells(config, longer, e)
  {
    hide Dedupe, Iou;
    TrackGoesOn(config, ticks, tick, track);
    var last := Sighting(|ticks| + 1, d);
    longer := track + [last];
    assert SeenIn(config, ticks + [tick], last);
    assert SeenIn(config, ticks, track[|track| - 1]);
    assert FollowsOn(config, track[|track| - 1], last);
    forall k | 0 < k < |longer|
      ensures FollowsOn(config, longer[k - 1], longer[k])
    {
      if k < |track| {
        assert FollowsOn(config, track[k - 1], track[k]);
      }
    }
    forall k | 0 < k < |track|
      ensures InPlace(config, longer, k) == InPlace(config, track, k)
    {
    }
    assert InPlace(config, longer, |track|) <==> Iou(was.box, d.box) >= config.stationaryIou;
  }

  lemma TrackStarts(config: RegionConfig, ticks: seq<BusyTick>, tick: BusyTick, e: Entry, d: Detection) returns (track: seq<Sighting>)
    requires d in Dedupe(tick.tick.detections, config.mergeIou) && FirstSeenAs(|ticks| + 1, e, d)
    ensures ValidTrack(config, ticks + [tick], track) && Tells(config, track, e)
  {
    hide Dedupe;
    track := [Sighting(|ticks| + 1, d)];
    assert SeenIn(config, ticks + [tick], track[0]);
  }

  lemma {:induction false} BusyRunCounts(frame: Frame, config: RegionConfig, ticks: seq<BusyTick>)
    ensures BusyRunOf(frame, config, ticks).frameIndex == |ticks|
  {
    hide AfterBusy;
    if ticks != [] {
      BusyRunCounts(frame, config, ticks[..|ticks| - 1]);
    }
  }

  /** An object kept by a commit is one that was cached, as it was or seen again, or one first seen. */
  predicate ComesFrom(config: RegionConfig, now: int, before: seq<Entry>, found: seq<Detection>, k: nat, e: Entry) {
    if k < |before| then e == before[k] || exists d :: d in found && SeenAgainAs(config, now, before[k], e, d)
    else exists d :: d in found && FirstSeenAs(now, e, d)
  }

  lemma EntryComesFrom(config: RegionConfig, scene: Scene, detections: seq<Detection>, executed: seq<Box>, i: nat) returns (k: nat)
    requires i < |Committed(config, scene, detections, executed).entries|
    ensures ComesFrom(config, scene.frameIndex, scene.entries, Dedupe(detections, config.mergeIou), k,
                      Committed(config, scene, detections, executed).entries[i])
  {
    hide Dedupe, AbsorbAll, SeenAgainAs, FirstSeenAs, Committed;
    var found, m := Dedupe(detections, config.mergeIou), MatchingOf(config, scene, detections);
    AbsorbExactly(config, scene.frameIndex, scene.entries, found);
    var at := CommitKeepsExactly(config, scene, detections, executed);
    k := at[i];
    assert Absorbed(config, scene.frameIndex, scene.entries, found, m, k);
  }

  /**
    Over every run, whatever crops ran: a cached object is its last sighting, and its count of motionless frames is the
    number of latest sightings in a row in the place of the sighting before; one elsewhere sets it to 0.
   */
  lemma {:induction false} EntryHasTrack(frame: Frame, config: RegionConfig, ticks: seq<BusyTick>, i: nat) returns (track: seq<Sighting>)
    requires i < |BusyRunOf(frame, config, ticks).entries|
    ensures ValidTrack(config, ticks, track) && Tells(config, track, BusyRunOf(frame, config, ticks).entries[i])
    decreases |ticks|
  {
    hide ValidTrack, StoodStillFor, Planned, Committed, Dedupe, SeenAgainAs, FirstSeenAs, Served;
    var n := |ticks| - 1;
    var before, tick := ticks[..n], ticks[n];
    var scene := BusyRunOf(frame, config, before);
    assert ticks == before + [tick];
    BusyRunCounts(frame, config, before);
    var planned := Planned(frame, config, scene, tick.tick.motion);
    PlannedExactly(frame, config, scene, tick.tick.motion);
    var found := Dedupe(tick.tick.detections, config.mergeIou);
    var k := EntryComesFrom(config, planned, tick.tick.detections, tick.executed, i);
    var e := BusyRunOf(frame, config, ticks).entries[i];
    if k < |planned.entries| {
      track := EntryHasTrack(frame, config, before, k);
      if e == planned.entries[k] {
        TrackGoesOn(config, before, tick, track);
      } else {
        var d :| d in found && SeenAgainAs(config, planned.frameIndex, planned.entries[k], e, d);
        track := TrackGrows(config, before, tick, track, planned.entries[k], e, d);
      }
    } else {
      var d :| d in found && FirstSeenAs(planned.frameIndex, e, d);
      track := TrackStarts(config, before, tick, e, d);
    }
  }

  /**
    When an object is served from the cache, from its track alone: its last sightings stood in place, as many as the
    threshold asks for, the last of them is more recent than the re-check interval, and the motion of this frame
    neither touches it nor makes a crop that holds it. Then its last detection is carried; otherwise a planned crop
    holds it.
   */
  lemma CarriedExactlyInPlace(frame: Frame, config: RegionConfig, ticks: seq<BusyTick>, motion: seq<RawBox>, i: nat)
      returns (track: seq<Sighting>)
    requires Croppable(frame) && ValidBusyRun(frame, config, ticks)
    requires i < |BusyRunOf(frame, config, ticks).entries|
    ensures var scene := BusyRunOf(frame, config, ticks);
            var plan, after := PlanOf(frame, config, scene, motion), Planned(frame, config, scene, motion);
            && ValidTrack(config, ticks, track) && Tells(config, track, scene.entries[i])
            && var last := track[|track| - 1];
            var carried :=
              && config.stationarySkip
              && config.stationaryThreshold < |track|
              && (forall k | 0 < k < |track| && |track| - config.stationaryThreshold <= k :: InPlace(config, track, k))
              && |ticks| + 1 - last.frame < config.stationaryInterval
              && (forall b | b in Clipped(motion, frame) :: NoCommonPoint(last.seen.box, b))
              && HeldByNone(MotionRegions(frame, config, motion), last.seen.box);
            && after.entries[i].skips == scene.entries[i].skips + (if carried then 1 else 0)
            && if carried
               then last.seen.(stationary := true, stationaryFrames := after.entries[i].skips) in plan.carried
               else Covered(plan.regions, last.seen.box)
  {
    hide ValidTrack, PlanOf, MotionRegions, Clipped, Planned, InPlace, BusyRunOf, ValidBusyRun;
    var scene := BusyRunOf(frame, config, ticks);
    BusyRunIsGood(frame, config, ticks);
    track := EntryHasTrack(frame, config, ticks, i);
    PlannedExactly(frame, config, scene, motion);
    PlanCoversCache(frame, config, scene, motion, i);
    ServedExactly(config, scene.frameIndex + 1, MotionRegions(frame, config, motion), Clipped(motion, frame), scene.entries[i]);
    StillEnough(config, track, scene.entries[i].motionless);
  }

  predicate NoCommonPoint(a: Box, b: Box) { a.x2 < b.x1 || b.x2 < a.x1 || a.y2 < b.y1 || b.y2 < a.y1 }

  lemma StillEnough(config: RegionConfig, track: seq<Sighting>, count: nat)
    requires StoodStillFor(config, track, count)
    ensures count >= config.stationaryThreshold <==>
            && config.stationaryThreshold < |track|
            && forall k | 0 < k < |track| && |track| - config.stationaryThreshold <= k :: InPlace(config, track, k)
  {
    if count < config.stationaryThreshold < |track| {
      assert !InPlace(config, track, |track| - count - 1);
    }
  }

  // ---------------------------------------------------------------------------------------------
  // Runs in which everything ran are such runs
  // ---------------------------------------------------------------------------------------------

  function AllRan(frame: Frame, config: RegionConfig, ticks: seq<Tick>): (r: seq<BusyTick>)
    ensures |r| == |ticks|
  {
    if ticks == [] then []
    else
      var n := |ticks| - 1;
      var plan := TickPlan(frame, config, RunOf(frame, config, ticks[..n]), ticks[n]);
      AllRan(frame, config, ticks[..n]) + [BusyTick(ticks[n], plan.regions)]
  }

  lemma {:induction false} RunIsBusyRun(frame: Frame, config: RegionConfig, ticks: seq<Tick>)
    ensures BusyRunOf(frame, config, AllRan(frame, config, ticks)) == RunOf(frame, config, ticks)
    ensures ValidRun(frame, config, ticks) ==> ValidBusyRun(frame, config, AllRan(frame, config, ticks))
  {
    hide PlanOf, Planned, Committed;
    if ticks != [] {
      var n := |ticks| - 1;
      RunIsBusyRun(frame, config, ticks[..n]);
      assert AllRan(frame, config, ticks)[..n] == AllRan(frame, config, ticks[..n]);
    }
  }
}
