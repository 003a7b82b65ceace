/**
  `ObjectDetector._infer_by_regions`: the planner driven by a model that may be busy for some crops.
  The model itself is arbitrary: for each crop it is busy or returns some rows.
 */
module ObjectDetector {
  import opened Numbers
  import opened Wrappers
  import opened RegionGeometry
  import opened RegionClusters
  import opened RegionBuild
  import opened IouDedupe
  import opened RegionPlanner
  import opened PlannerRuns

  // ---------------------------------------------------------------------------------------------
  // Letterbox
  // ---------------------------------------------------------------------------------------------

  datatype Letterbox = Letterbox(scale: real, padX: int, padY: int)

  function MinReal(a: real, b: real): real { if b < a then b else a }

  function Resized(side: int, scale: real): int { RoundHalfEven(side as real * scale) }

  function Margin(side: int, inputSize: int, scale: real): int { (inputSize - Resized(side, scale)) / 2 }

  /** Fitting a `w` by `h` crop in a square of side `inputSize`. */
  function LetterboxOf(w: int, h: int, inputSize: int): Letterbox
    requires w > 0 && h > 0 && inputSize > 0
  {
    var scale := MinReal(inputSize as real / w as real, inputSize as real / h as real);
    Letterbox(scale, Margin(w, inputSize, scale), Margin(h, inputSize, scale))
  }

  /** Where a crop pixel lands in the model's canvas. */
  function ToModel(p: int, pad: int, scale: real): real { p as real * scale + pad as real }

  /** From model coordinates back to crop pixels: the clamp and the truncation of `_detect_raw`. */
  function FromModel(v: real, pad: int, scale: real, limit: int): int
    requires scale > 0.0
  {
    Trunc(MaxR(0.0, MinReal(limit as real, (v - pad as real) / scale)))
  }

  lemma Quotient(a: real, b: real)
    requires a > 0.0 && b > 0.0
    ensures a / b > 0.0 && b * (a / b) == a
  {
  }

  lemma ProductAtMost(side: real, scale: real, bound: real)
    requires side > 0.0 && 0.0 < scale <= bound
    ensures side * scale <= side * bound
  {
  }

  /** One axis: with a scale of at most `inputSize / side`, the margin is not negative and the far edge fits. */
  lemma MarginFits(side: int, inputSize: int, scale: real)
    requires side > 0 && inputSize > 0 && 0.0 < scale <= inputSize as real / side as real
    ensures 0 <= Margin(side, inputSize, scale) && Margin(side, inputSize, scale) + Resized(side, scale) <= inputSize
  {
    Quotient(inputSize as real, side as real);
    ProductAtMost(side as real, scale, inputSize as real / side as real);
    RoundAtMost(side as real * scale, inputSize);
  }

  /** The scaled crop fits in the canvas: margins are never negative. */
  lemma LetterboxFits(w: int, h: int, inputSize: int)
    requires w > 0 && h > 0 && inputSize > 0
    ensures var box := LetterboxOf(w, h, inputSize);
            && box.scale > 0.0 && box.padX >= 0 && box.padY >= 0
            && box.padX + Resized(w, box.scale) <= inputSize
            && box.padY + Resized(h, box.scale) <= inputSize
  {
    hide Margin, Resized;
    Quotient(inputSize as real, w as real);
    Quotient(inputSize as real, h as real);
    var scale := LetterboxOf(w, h, inputSize).scale;
    MarginFits(w, inputSize, scale);
    MarginFits(h, inputSize, scale);
  }

  /**
    The scale is the largest that fits: both sides fit, and one fills the canvas. The rounded sides are centred, an odd
    pixel going to the far margin.
   */
  lemma LetterboxExactly(w: int, h: int, inputSize: int) returns (width: int, height: int)
    requires w > 0 && h > 0 && inputSize > 0
    ensures var box := LetterboxOf(w, h, inputSize);
            && w as real * box.scale <= inputSize as real && h as real * box.scale <= inputSize as real
            && (w as real * box.scale == inputSize as real || h as real * box.scale == inputSize as real)
            && -0.5 <= width as real - w as real * box.scale <= 0.5
            && -0.5 <= height as real - h as real * box.scale <= 0.5
            && 0 <= inputSize - width - 2 * box.padX <= 1
            && 0 <= inputSize - height - 2 * box.padY <= 1
  {
    hide Margin, Resized, LetterboxOf;
    var scale := LetterboxOf(w, h, inputSize).scale;
    ScaleFills(w, h, inputSize);
    width, height := Resized(w, scale), Resized(h, scale);
    MarginIsCentred(w, inputSize, scale);
    MarginIsCentred(h, inputSize, scale);
    LetterboxMargins(w, h, inputSize);
  }

  lemma LetterboxMargins(w: int, h: int, inputSize: int)
    requires w > 0 && h > 0 && inputSize > 0
    ensures var box := LetterboxOf(w, h, inputSize);
            box.padX == Margin(w, inputSize, box.scale) && box.padY == Margin(h, inputSize, box.scale)
  {
  }

  lemma ScaleFills(w: int, h: int, inputSize: int)
    requires w > 0 && h > 0 && inputSize > 0
    ensures var scale, size := LetterboxOf(w, h, inputSize).scale, inputSize as real;
            && w as real * scale <= size && h as real * scale <= size
            && (w as real * scale == size || h as real * scale == size)
  {
    hide Margin;
    var size := inputSize as real;
    Quotient(size, w as real);
    Quotient(size, h as real);
    if size / h as real < size / w as real {
      ProductAtMost(w as real, size / h as real, size / w as real);
    } else {
      ProductAtMost(h as real, size / w as real, size / h as real);
    }
  }

  lemma MarginIsCentred(side: int, inputSize: int, scale: real)
    ensures -0.5 <= Resized(side, scale) as real - side as real * scale <= 0.5
    ensures 0 <= inputSize - Resized(side, scale) - 2 * Margin(side, inputSize, scale) <= 1
  {
    RoundIsNearest(side as real * scale, 0);
    hide RoundHalfEven;
  }

  /** A model coordinate is the crop pixel it falls in, or the near or far edge where it falls outside the crop. */
  lemma FromModelExactly(v: real, pad: int, scale: real, limit: int)
    requires scale > 0.0 && limit >= 0
    ensures var n := FromModel(v, pad, scale, limit);
            && (v <= pad as real ==> n == 0)
            && (v - pad as real >= limit as real * scale ==> n == limit)
            && (0.0 < v - pad as real < limit as real * scale ==>
                  0 <= n < limit && n as real * scale <= v - pad as real < (n + 1) as real * scale)
  {
    hide Trunc, MaxR, MinReal;
    var offset := v - pad as real;
    var at := offset / scale;
    QuotientTimes(offset, scale);
    ClampedFloor(at, limit);
    PixelOf(FromModel(v, pad, scale, limit), at, offset, scale, limit);
  }

  lemma PixelOf(n: int, at: real, offset: real, scale: real, limit: int)
    requires scale > 0.0 && limit >= 0 && at * scale == offset
    requires n == if at <= 0.0 then 0 else if at >= limit as real then limit else at.Floor
    ensures offset <= 0.0 ==> n == 0
    ensures offset >= limit as real * scale ==> n == limit
    ensures 0.0 < offset < limit as real * scale ==>
              0 <= n < limit && n as real * scale <= offset < (n + 1) as real * scale
  {
    ScaleOrder(at, 0.0, scale);
    ScaleOrder(at, limit as real, scale);
    if 0.0 < at < limit as real {
      TimesBetween(n as real, (n + 1) as real, at, offset, scale);
    }
  }

  lemma ClampedFloor(at: real, limit: int)
    requires limit >= 0
    ensures Trunc(MaxR(0.0, MinReal(limit as real, at))) ==
            if at <= 0.0 then 0 else if at >= limit as real then limit else at.Floor
    ensures 0.0 < at < limit as real ==> 0 <= at.Floor < limit
  {
  }

  lemma TimesBetween(low: real, high: real, at: real, offset: real, scale: real)
    requires scale > 0.0 && at * scale == offset && low <= at < high
    ensures low * scale <= offset < high * scale
  {
    ScaleOrder(low, at, scale);
    ScaleOrder(at, high, scale);
  }

  lemma ScaleOrder(a: real, b: real, scale: real)
    requires scale > 0.0
    ensures a < b <==> a * scale < b * scale
    ensures a == b ==> a * scale == b * scale
  {
    if a < b {
      assert (b - a) * scale > 0.0;
    } else {
      assert (a - b) * scale >= 0.0;
    }
  }

  lemma RoundAtMost(r: real, k: int)
    requires r <= k as real
    ensures RoundHalfEven(r) <= k
  {
    if r.Floor >= k {
      assert r == k as real;
    }
  }

  /** A crop pixel sent through the letterbox comes back as itself. */
  lemma FromModelInverts(p: int, pad: int, scale: real, limit: int)
    requires scale > 0.0 && 0 <= p <= limit
    ensures FromModel(ToModel(p, pad, scale), pad, scale, limit) == p
  {
    var v := ToModel(p, pad, scale);
    assert v - pad as real == p as real * scale;
    var back := (v - pad as real) / scale;
    assert back == p as real;
    assert MaxR(0.0, MinReal(limit as real, back)) == p as real;
    assert Trunc(p as real) == p;
  }

  // ---------------------------------------------------------------------------------------------
  // One crop
  // ---------------------------------------------------------------------------------------------

  /** One output row; `Short` has fewer than six values. */
  datatype Row = Short | Row(x1: real, y1: real, x2: real, y2: real, score: real, classId: int)

  datatype Outcome = Busy | Ran(rows: seq<Row>)

  datatype Profile = Profile(inputSize: int, minHeight: int, minScore: map<int, real>)

  /** `frame[y1:y2, x1:x2]`, as numpy truncates it. */
  function Crop(frame: Frame, region: Box): Box {
    Box(region.x1, region.y1, Min(region.x2, frame.width), Min(region.y2, frame.height))
  }

  function Shift(b: Box, x: int, y: int): Box { Box(b.x1 + x, b.y1 + y, b.x2 + x, b.y2 + y) }

  /** One row of one crop in frame coordinates, or nothing if a filter refuses it. */
  function RowDetection(profile: Profile, crop: Box, row: Row): Option<Detection>
    requires Nonempty(crop) && profile.inputSize > 0
  {
    if row.Short? || row.classId !in profile.minScore || row.score < profile.minScore[row.classId] then None
    else
      var w, h := crop.x2 - crop.x1, crop.y2 - crop.y1;
      LetterboxFits(w, h, profile.inputSize);
      var box := LetterboxOf(w, h, profile.inputSize);
      var found := Box(
        FromModel(row.x1, box.padX, box.scale, w), FromModel(row.y1, box.padY, box.scale, h),
        FromModel(row.x2, box.padX, box.scale, w), FromModel(row.y2, box.padY, box.scale, h));
      if !Nonempty(found) || found.y2 - found.y1 < profile.minHeight then None
      else Some(Detection(Shift(found, crop.x1, crop.y1), row.classId, row.score, 0, false, 0))
  }

  /** Whatever the model outputs, a detection lies inside the crop it came from. */
  lemma RowStaysInCrop(profile: Profile, crop: Box, row: Row)
    requires Nonempty(crop) && profile.inputSize > 0
    ensures RowDetection(profile, crop, row).Some? ==>
              Nonempty(RowDetection(profile, crop, row).value.box) && Inside(crop, RowDetection(profile, crop, row).value.box)
  {
  }

  /** When a row is refused, and what it becomes otherwise. */
  lemma RowExactly(profile: Profile, crop: Box, row: Row)
    requires crop.x1 < crop.x2 && crop.y1 < crop.y2 && profile.inputSize > 0
    ensures LetterboxOf(crop.x2 - crop.x1, crop.y2 - crop.y1, profile.inputSize).scale > 0.0
    ensures var w, h, found := crop.x2 - crop.x1, crop.y2 - crop.y1, RowDetection(profile, crop, row);
            var box := LetterboxOf(w, h, profile.inputSize);
            if row.Short? || row.classId !in profile.minScore || row.score < profile.minScore[row.classId] then found == None
            else
              var x1, y1 := FromModel(row.x1, box.padX, box.scale, w), FromModel(row.y1, box.padY, box.scale, h);
              var x2, y2 := FromModel(row.x2, box.padX, box.scale, w), FromModel(row.y2, box.padY, box.scale, h);
              if x1 >= x2 || y1 >= y2 || y2 - y1 < profile.minHeight then found == None
              else
                && found.Some?
                && found.value.box == Box(crop.x1 + x1, crop.y1 + y1, crop.x1 + x2, crop.y1 + y2)
                && found.value.classId == row.classId && found.value.score == row.score && !found.value.stationary
  {
    hide LetterboxOf, FromModel;
    LetterboxFits(crop.x2 - crop.x1, crop.y2 - crop.y1, profile.inputSize);
  }

  /** The row a perfect model gives for an object at `target`, in model coordinates. */
  function PerfectRow(profile: Profile, crop: Box, target: Box, score: real, classId: int): Row
    requires Nonempty(crop) && profile.inputSize > 0
  {
    var box := LetterboxOf(crop.x2 - crop.x1, crop.y2 - crop.y1, profile.inputSize);
    Row(ToModel(target.x1 - crop.x1, box.padX, box.scale), ToModel(target.y1 - crop.y1, box.padY, box.scale),
        ToModel(target.x2 - crop.x1, box.padX, box.scale), ToModel(target.y2 - crop.y1, box.padY, box.scale),
        score, classId)
  }

  /** Crop, letterbox, clamp and shift undo each other: the object is reported where it is in the whole frame. */
  lemma DetectionIsWhereObjectIs(profile: Profile, crop: Box, target: Box, score: real, classId: int)
    requires Nonempty(crop) && profile.inputSize > 0 && Nonempty(target) && Inside(crop, target)
    requires classId in profile.minScore && score >= profile.minScore[classId]
    requires target.y2 - target.y1 >= profile.minHeight
    ensures RowDetection(profile, crop, PerfectRow(profile, crop, target, score, classId))
         == Some(Detection(target, classId, score, 0, false, 0))
  {
    hide LetterboxOf, FromModel, ToModel;
    var w, h := crop.x2 - crop.x1, crop.y2 - crop.y1;
    LetterboxFits(w, h, profile.inputSize);
    var box := LetterboxOf(w, h, profile.inputSize);
    FromModelInverts(target.x1 - crop.x1, box.padX, box.scale, w);
    FromModelInverts(target.x2 - crop.x1, box.padX, box.scale, w);
    FromModelInverts(target.y1 - crop.y1, box.padY, box.scale, h);
    FromModelInverts(target.y2 - crop.y1, box.padY, box.scale, h);
  }

  function RowsDetections(profile: Profile, crop: Box, rows: seq<Row>): seq<Detection>
    requires Nonempty(crop) && profile.inputSize > 0
  {
    if rows == [] then []
    else
      var before := RowsDetections(profile, crop, rows[..|rows| - 1]);
      var last := RowDetection(profile, crop, rows[|rows| - 1]);
      if last.Some? then before + [last.value] else before
  }

  lemma {:induction false} RowsStayInCrop(profile: Profile, crop: Box, rows: seq<Row>, d: Detection)
    requires Nonempty(crop) && profile.inputSize > 0 && d in RowsDetections(profile, crop, rows)
    ensures Nonempty(d.box) && Inside(crop, d.box)
  {
    var n := |rows| - 1;
    if d in RowsDetections(profile, crop, rows[..n]) {
      RowsStayInCrop(profile, crop, rows[..n], d);
    } else {
      RowStaysInCrop(profile, crop, rows[n]);
    }
  }

  /** The rows of a crop that are not refused, each once and in order. */
  lemma {:induction false} RowsExactly(profile: Profile, crop: Box, rows: seq<Row>) returns (at: seq<nat>)
    requires Nonempty(crop) && profile.inputSize > 0
    ensures |at| == |RowsDetections(profile, crop, rows)| && forall p, q | 0 <= p < q < |at| :: at[p] < at[q]
    ensures forall r: nat :: r in at <==> r < |rows| && RowDetection(profile, crop, rows[r]).Some?
    ensures forall p | 0 <= p < |at| ::
              at[p] < |rows| && RowDetection(profile, crop, rows[at[p]]) == Some(RowsDetections(profile, crop, rows)[p])
  {
    hide RowDetection;
    at := [];
    if rows != [] {
      var n := |rows| - 1;
      at := RowsExactly(profile, crop, rows[..n]);
      assert forall r: nat :: r in at ==> r < n;
      if RowDetection(profile, crop, rows[n]).Some? {
        at := at + [n];
      }
    }
  }

  // ---------------------------------------------------------------------------------------------
  // One frame
  // ---------------------------------------------------------------------------------------------

  /** Whether region `i` was really inferred: a slice of no size or a busy pool does not count. */
  predicate Inferred(frame: Frame, regions: seq<Box>, outcomes: seq<Outcome>, i: nat)
    requires i < |regions| == |outcomes|
  {
    Nonempty(Crop(frame, regions[i])) && outcomes[i].Ran?
  }

  function ExecutedOf(frame: Frame, regions: seq<Box>, outcomes: seq<Outcome>, n: nat): (r: seq<Box>)
    requires n <= |regions| == |outcomes|
    ensures |r| <= n
  {
    if n == 0 then []
    else
      var before := ExecutedOf(frame, regions, outcomes, n - 1);
      if Inferred(frame, regions, outcomes, n - 1) then before + [regions[n - 1]] else before
  }

  function FoundOf(frame: Frame, profile: Profile, regions: seq<Box>, outcomes: seq<Outcome>, n: nat): seq<Detection>
    requires n <= |regions| == |outcomes| && profile.inputSize > 0
  {
    if n == 0 then []
    else
      var before := FoundOf(frame, profile, regions, outcomes, n - 1);
      if Inferred(frame, regions, outcomes, n - 1)
      then before + RowsDetections(profile, Crop(frame, regions[n - 1]), outcomes[n - 1].rows)
      else before
  }

  class Detector {
    const planner: MotionRegionPlanner
    const profile: Profile
    var regionRuns: nat
    var regionCrops: nat
    var regionSweeps: nat
    var idleFullFrames: nat
    var stationarySkips: nat

    constructor (config: RegionConfig, profile: Profile)
      ensures this.profile == profile && planner.config == config && planner.View() == EmptyScene && fresh(planner)
    {
      this.profile := profile;
      planner := new MotionRegionPlanner(config);
      regionRuns, regionCrops, regionSweeps, idleFullFrames, stationarySkips := 0, 0, 0, 0, 0;
    }

    method RunRegions(frame: Frame, regions: seq<Box>, outcomes: seq<Outcome>)
      returns (found: seq<Detection>, executed: seq<Box>)
      requires |regions| == |outcomes| && profile.inputSize > 0
      modifies this`regionCrops
      ensures found == FoundOf(frame, profile, regions, outcomes, |regions|)
      ensures executed == ExecutedOf(frame, regions, outcomes, |regions|)
      ensures regionCrops == old(regionCrops) + |executed|
    {
      found, executed := [], [];
      for i := 0 to |regions|
        invariant found == FoundOf(frame, profile, regions, outcomes, i)
        invariant executed == ExecutedOf(frame, regions, outcomes, i)
        invariant regionCrops == old(regionCrops) + |executed|
      {
        var crop := Crop(frame, regions[i]);
        if !Nonempty(crop) {
          continue;
        }
        if outcomes[i].Busy? {
          continue;
        }
        executed := executed + [regions[i]];
        regionCrops := regionCrops + 1;
        found := found + RowsDetections(profile, crop, outcomes[i].rows);
      }
    }

    /** One call; `outcomes` is what the pool and the model do for each planned crop. */
    method InferByRegions(frame: Frame, motion: seq<RawBox>, outcomes: seq<Outcome>) returns (reported: seq<Detection>)
      requires profile.inputSize > 0
      requires |outcomes| == |PlanOf(frame, planner.config, planner.View(), motion).regions|
      modifies this, planner
      ensures var scene := old(planner.View());
              var plan := PlanOf(frame, planner.config, scene, motion);
              var found := FoundOf(frame, profile, plan.regions, outcomes, |plan.regions|);
              var executed := ExecutedOf(frame, plan.regions, outcomes, |plan.regions|);
              && planner.View() == Committed(planner.config, Planned(frame, planner.config, scene, motion), found, executed)
              && reported == Reported(planner.config, found, plan)
              && regionCrops == old(regionCrops) + |executed|
              && regionSweeps == old(regionSweeps) + (if plan.sweep then 1 else 0)
              && idleFullFrames == old(idleFullFrames) + (if plan.idle then 1 else 0)
              && stationarySkips == old(stationarySkips) + plan.skipped
              && regionRuns == old(regionRuns) + 1
    {
      hide PlanOf, Planned, Committed, Reported, FoundOf, ExecutedOf;
      var plan := planner.Plan(frame, motion);
      regionRuns := regionRuns + 1;
      stationarySkips := stationarySkips + plan.skipped;
      if plan.sweep {
        regionSweeps := regionSweeps + 1;
      }
      if plan.idle {
        idleFullFrames := idleFullFrames + 1;
      }
      var found, executed := RunRegions(frame, plan.regions, outcomes);
      reported := planner.Commit(found, plan, executed);
    }
  }

  // ---------------------------------------------------------------------------------------------
  // What the detector guarantees the planner
  // ---------------------------------------------------------------------------------------------

  /** Every detection lies in the frame, inside a crop that was really inferred. */
  lemma {:induction false} FoundInExecuted(frame: Frame, profile: Profile, regions: seq<Box>, outcomes: seq<Outcome>, n: nat, d: Detection)
    requires n <= |regions| == |outcomes| && profile.inputSize > 0 && AllInFrame(frame, regions)
    requires d in FoundOf(frame, profile, regions, outcomes, n)
    ensures InFrame(frame, d.box) && Covered(ExecutedOf(frame, regions, outcomes, n), d.box)
  {
    var region := regions[n - 1];
    var executed := ExecutedOf(frame, regions, outcomes, n);
    if d in FoundOf(frame, profile, regions, outcomes, n - 1) {
      FoundInExecuted(frame, profile, regions, outcomes, n - 1, d);
      var r :| r in ExecutedOf(frame, regions, outcomes, n - 1) && Inside(r, d.box);
      assert r in executed;
    } else {
      assert region in regions && Crop(frame, region) == region;
      RowsStayInCrop(profile, region, outcomes[n - 1].rows, d);
      assert region in executed;
    }
  }

  lemma {:induction false} NoneBusyAllExecuted(frame: Frame, regions: seq<Box>, outcomes: seq<Outcome>, n: nat)
    requires n <= |regions| == |outcomes| && AllInFrame(frame, regions)
    requires forall i | 0 <= i < n :: outcomes[i].Ran?
    ensures ExecutedOf(frame, regions, outcomes, n) == regions[..n]
  {
    if n > 0 {
      NoneBusyAllExecuted(frame, regions, outcomes, n - 1);
      assert regions[n - 1] in regions;
    }
  }

  /**
    The runs of `PlannerRuns` are the detector's runs: with a free pool, one call is one valid tick, for
    any output of the model.
   */
  lemma CallIsValidTick(frame: Frame, profile: Profile, config: RegionConfig, scene: Scene, motion: seq<RawBox>, outcomes: seq<Outcome>)
    requires Croppable(frame) && GoodScene(frame, scene) && profile.inputSize > 0
    requires |outcomes| == |PlanOf(frame, config, scene, motion).regions|
    requires forall i | 0 <= i < |outcomes| :: outcomes[i].Ran?
    ensures var regions := PlanOf(frame, config, scene, motion).regions;
            var found := FoundOf(frame, profile, regions, outcomes, |regions|);
            && ExecutedOf(frame, regions, outcomes, |regions|) == regions
            && ValidTick(frame, config, scene, Tick(motion, found))
  {
    hide PlanOf, FoundOf, ExecutedOf;
    var regions := PlanOf(frame, config, scene, motion).regions;
    var found := FoundOf(frame, profile, regions, outcomes, |regions|);
    PlanCoversMotion(frame, config, scene, motion, Malformed);
    NoneBusyAllExecuted(frame, regions, outcomes, |regions|);
    assert regions[..|regions|] == regions;
    forall d | d in found
      ensures InFrame(frame, d.box) && Covered(regions, d.box)
    {
      FoundInExecuted(frame, profile, regions, outcomes, |regions|, d);
    }
  }

  lemma {:induction false} ExecutedWereInferred(frame: Frame, regions: seq<Box>, outcomes: seq<Outcome>, n: nat, r: Box)
    requires n <= |regions| == |outcomes| && r in ExecutedOf(frame, regions, outcomes, n)
    ensures exists i: nat | i < n :: regions[i] == r && Inferred(frame, regions, outcomes, i)
  {
    if r in ExecutedOf(frame, regions, outcomes, n - 1) {
      ExecutedWereInferred(frame, regions, outcomes, n - 1, r);
    }
  }

  /**
    A busy pool removes nothing: an object not found this frame and younger than the age limit stays
    cached unless some crop holding it was really inferred.
   */
  lemma BusyPoolKeepsObjects(frame: Frame, config: RegionConfig, profile: Profile, scene: Scene, regions: seq<Box>,
                             outcomes: seq<Outcome>, i: nat)
    requires |regions| == |outcomes| && profile.inputSize > 0
    requires i < |scene.entries| && scene.frameIndex - scene.entries[i].lastSeen < config.stationaryMaxAge
    ensures var found := FoundOf(frame, profile, regions, outcomes, |regions|);
            var m := MatchingOf(config, scene, found);
            i in m.matched
            || scene.entries[i] in Committed(config, scene, found, ExecutedOf(frame, regions, outcomes, |regions|)).entries
            || exists k: nat | k < |regions| :: Inferred(frame, regions, outcomes, k) && Inside(regions[k], scene.entries[i].box)
  {
    hide FoundOf, ExecutedOf;
    var found := FoundOf(frame, profile, regions, outcomes, |regions|);
    var executed := ExecutedOf(frame, regions, outcomes, |regions|);
    var m := MatchingOf(config, scene, found);
    AbsorbFaithful(config, scene.frameIndex, scene.entries, Dedupe(found, config.mergeIou));
    if i !in m.matched && Covered(executed, scene.entries[i].box) {
      var r :| r in executed && Inside(r, scene.entries[i].box);
      ExecutedWereInferred(frame, regions, outcomes, |regions|, r);
    } else if i !in m.matched {
      assert Survives(config, scene.frameIndex, m, executed, i);
      assert m.entries[i] in Survivors(config, scene.frameIndex, m, executed, |m.entries|);
    }
  }

  // ---------------------------------------------------------------------------------------------
  // Nothing the model found is lost
  // ---------------------------------------------------------------------------------------------

  /** A row of a crop. */
  datatype Spot = Spot(crop: nat, row: nat)

  predicate EarlierSpot(a: Spot, b: Spot) { a.crop < b.crop || (a.crop == b.crop && a.row < b.row) }

  /** The row exists, its crop was inferred, and it is not refused. */
  predicate AcceptedAt(profile: Profile, regions: seq<Box>, outcomes: seq<Outcome>, s: Spot)
    requires |regions| == |outcomes| && profile.inputSize > 0
  {
    && s.crop < |regions| && outcomes[s.crop].Ran? && s.row < |outcomes[s.crop].rows| && Nonempty(regions[s.crop])
    && RowDetection(profile, regions[s.crop], outcomes[s.crop].rows[s.row]).Some?
  }

  /** The detections of a frame are the accepted rows of the inferred crops: all of them, each once, crop by crop. */
  lemma {:induction false} FoundExactly(frame: Frame, profile: Profile, regions: seq<Box>, outcomes: seq<Outcome>, n: nat)
      returns (at: seq<Spot>)
    requires n <= |regions| == |outcomes| && profile.inputSize > 0 && AllInFrame(frame, regions)
    ensures |at| == |FoundOf(frame, profile, regions, outcomes, n)|
    ensures forall p, q | 0 <= p < q < |at| :: EarlierSpot(at[p], at[q])
    ensures forall s: Spot :: s in at <==> s.crop < n && AcceptedAt(profile, regions, outcomes, s)
    ensures forall p | 0 <= p < |at| ::
              && AcceptedAt(profile, regions, outcomes, at[p])
              && RowDetection(profile, regions[at[p].crop], outcomes[at[p].crop].rows[at[p].row])
                 == Some(FoundOf(frame, profile, regions, outcomes, n)[p])
  {
    hide RowDetection, RowsDetections, Inside;
    at := [];
    if n > 0 {
      at := FoundExactly(frame, profile, regions, outcomes, n - 1);
      assert forall s :: s in at ==> s.crop < n - 1;
      var region := regions[n - 1];
      InFrameIsItsCrop(frame, regions, n - 1);
      if outcomes[n - 1].Ran? {
        var rows := RowsExactly(profile, region, outcomes[n - 1].rows);
        var here := SpotsOf(n - 1, rows);
        at := at + here;
      }
    }
  }

  lemma InFrameIsItsCrop(frame: Frame, regions: seq<Box>, i: nat)
    requires AllInFrame(frame, regions) && i < |regions|
    ensures Crop(frame, regions[i]) == regions[i] && Nonempty(regions[i])
  {
    assert regions[i] in regions;
  }

  function SpotsOf(crop: nat, rows: seq<nat>): (r: seq<Spot>)
    ensures |r| == |rows| && (forall p | 0 <= p < |rows| :: r[p] == Spot(crop, rows[p]))
    ensures forall s: Spot :: s in r <==> s.crop == crop && s.row in rows
  {
    var r := seq(|rows|, p requires 0 <= p < |rows| => Spot(crop, rows[p]));
    assert forall p | 0 <= p < |rows| :: r[p] in r;
    r
  }

  /** The executed crops are the inferred ones, all of them and in order. */
  lemma {:induction false} ExecutedExactly(frame: Frame, regions: seq<Box>, outcomes: seq<Outcome>, n: nat) returns (at: seq<nat>)
    requires n <= |regions| == |outcomes| && AllInFrame(frame, regions)
    ensures |at| == |ExecutedOf(frame, regions, outcomes, n)| && forall p, q | 0 <= p < q < |at| :: at[p] < at[q]
    ensures forall i: nat :: i in at <==> i < n && outcomes[i].Ran?
    ensures forall p | 0 <= p < |at| :: at[p] < n && ExecutedOf(frame, regions, outcomes, n)[p] == regions[at[p]]
  {
    at := [];
    if n > 0 {
      at := ExecutedExactly(frame, regions, outcomes, n - 1);
      InFrameIsItsCrop(frame, regions, n - 1);
      assert forall i: nat :: i in at ==> i < n - 1;
      if outcomes[n - 1].Ran? {
        at := at + [n - 1];
      }
    }
  }

  /** `a` stands for `b` in a report: it is `b`, or one of its class over it that scores at least as much. */
  predicate StandsFor(a: Detection, b: Detection, threshold: real) {
    a == b || (a.classId == b.classId && Iou(a.box, b.box) >= threshold && a.score >= b.score)
  }

  /**
    From the model to the report: an object inside a crop that was inferred, for which the model gives its row, is
    reported where it is, or by a detection that stands for it; where objects are carried as well, that one may in turn
    be merged into one that stands for it.
   */
  lemma ObjectIsReported(frame: Frame, profile: Profile, config: RegionConfig, plan: RegionPlan, outcomes: seq<Outcome>,
                         s: Spot, target: Box, score: real, classId: int)
    requires |plan.regions| == |outcomes| && profile.inputSize > 0 && AllInFrame(frame, plan.regions)
    requires s.crop < |plan.regions| && outcomes[s.crop].Ran? && s.row < |outcomes[s.crop].rows|
    requires Nonempty(target) && Inside(plan.regions[s.crop], target) && plan.regions[s.crop] in plan.regions
    requires outcomes[s.crop].rows[s.row] == PerfectRow(profile, plan.regions[s.crop], target, score, classId)
    requires classId in profile.minScore && score >= profile.minScore[classId] && target.y2 - target.y1 >= profile.minHeight
    ensures var seen := Detection(target, classId, score, 0, false, 0);
            var found := FoundOf(frame, profile, plan.regions, outcomes, |plan.regions|);
            var reported := Reported(config, found, plan);
            && seen in found
            && (plan.carried == [] ==> exists d :: d in reported && StandsFor(d, seen, config.mergeIou))
            && exists d, e :: d in found && StandsFor(d, seen, config.mergeIou) && e in reported && StandsFor(e, d, config.mergeIou)
  {
    hide PerfectRow, Dedupe, FoundOf, RowDetection;
    var seen := Detection(target, classId, score, 0, false, 0);
    DetectionIsWhereObjectIs(profile, plan.regions[s.crop], target, score, classId);
    var at := FoundExactly(frame, profile, plan.regions, outcomes, |plan.regions|);
    var found := FoundOf(frame, profile, plan.regions, outcomes, |plan.regions|);
    assert AcceptedAt(profile, plan.regions, outcomes, s);
    var p :| 0 <= p < |at| && at[p] == s;
    assert found[p] == seen;
    var d := StandIn(seen, found, config.mergeIou);
    var merged := Dedupe(found, config.mergeIou);
    var first := DedupeProperties(found, config.mergeIou);
    assert d in found;
    if plan.carried == [] {
      assert StandsFor(d, d, config.mergeIou);
    } else {
      assert d in merged + plan.carried;
      var e := StandIn(d, merged + plan.carried, config.mergeIou);
    }
  }

  lemma StandIn(d: Detection, items: seq<Detection>, threshold: real) returns (k: Detection)
    requires d in items
    ensures k in items && k in Dedupe(items, threshold) && StandsFor(k, d, threshold)
  {
    hide Dedupe;
    var result := Dedupe(items, threshold);
    var at := DedupeProperties(items, threshold);
    assert Represented(d, result, threshold);
    k := if d in result then d else (var k :| k in result && Clash(k, d, threshold) && k.score >= d.score; k);
    var p :| 0 <= p < |result| && result[p] == k;
    assert items[at[p]] == k;
  }
}
