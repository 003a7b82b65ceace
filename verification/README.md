# DRAC: a verified model of its decision logic

DRAC is a video surveillance system: a Python AI service decides where to look for objects, a Go worker
records cameras, a NestJS API authorises people and supervises the AI, and a central control plane manages
the installations. This project models the parts whose behaviour depends on state, arithmetic or
interleaving, and proves what they promise over all inputs and all runs.

One module per component. Where the program is a value (geometry, clustering, percentiles, ranges, gates)
the model is functions and lemmas. Where it changes state step by step, the model is a class whose methods
are proved to compute a function of the old state, and the theorems are about that function. Concurrent parts are
state machines whose events are the program's atomic sections; a run is any sequence of events.

| module | component | main results |
|---|---|---|
| RegionGeometry, RegionClusters, RegionBuild | crop regions from motion boxes | BuildRegionsNeverDiscards, CropsExactly, ClusteringIsPartition |
| IouDedupe | one detection per object | KeptExactly, DedupeProperties, DedupeIdempotent |
| RegionPlanner, PlannerRuns, PlannerAgeDrop, PlannerBusyRuns, PlannerTracks | per-camera plan and commit | RunsCoverAndRecheck, SkippedIsReported, AgeDropExactly, BusyRunsCover, CarriedExactlyInPlace |
| Sorting, Numbers, Wrappers | the stable sort, larger and smaller, options | SortIsStable |
| ObjectDetector | letterbox, clamping, which regions ran | DetectionIsWhereObjectIs, ObjectIsReported, BusyPoolKeepsObjects |
| MotionContrast, MotionDetector | percentile fast path, confirmation counters | PercentileInterpolates, ReportsExactly |
| CaptureRateGuard, QualityLadder, FrameQueue, ConfirmMotion | capture alarm, degradation, queue, confirmation | ReportsExactly, LadderExactly, NeverRaisesExactly, FramesAreConserved, SuppressedExactly |
| ModelRegistry | one loader, others wait | SafeBetweenResets, ResetHarmlessExactly |
| RecordingWorker | Go worker | ActiveMeansOneRecorder, ContextsFollowActivity, PassLeavesRecordable |
| AccessControl, AiWatchdog | API | AccessibleExactly, UseExactly, RecoversExactly |
| AlertHistory, InstallerGrants, ProxyTrust, ChartDownsample, ChartScale | central control plane | HistoryTellsTruth, ServedExactly, ReadsSpelling, DownsampleExactly, BoundsExactly |

## Where the code differs from its comments

- The comment at region_proposal.py:116-118 says the re-check interval must stay below the maximum age or
  objects die of age. `PlannerAgeDrop.AgeDropExactly`: that happens exactly when skipping is on, the maximum
  age is below the interval, and the sweep is off or slower than the maximum age. That is with crops that all run;
  where crops may be busy it happens under every setting (`PlannerBusyRuns.BusyAgeDropAlways`).
- `region_proposal.py` promises a ceiling on the crops. Fusion is guarded by 1000 rounds, so the exact size is in
  `RegionBuild.CapSize`, and a frame smaller than 4 by 4 pixels gets crops outside it (`RegionGeometry.RegionInFrameIff`).
- `chart-utils.js` promises at most `maxPoints + 2` points. `ChartDownsample.DocumentedSizeExactly`: for every
  series exactly when `maxPoints` is at least twice the number of different fields.
- The registry says that waiters use the loaded model. The waiter looks its event up outside the lock and
  fails when the loader has left by then, even if its load succeeded (`ModelRegistry.WaiterFailsExactly`, reachable by
  `WaiterFailsAfterSuccess`; the whole fate of a waiter is in `WaiterReturnsExactly`). A reset keeps the one-detector
  promise for later interleavings exactly when no thread is in the middle of a load (`ResetHarmlessExactly`).
- A recorder that fetched its camera as disabled stops it by id, even if the camera has been stopped and
  started again since (`RecordingWorker.StopHitsSuccessorExactly`, with a run in `StaleRecorderStopsRestartedCamera`).
- The watchdog's comment says a stray processor is stopped on its second tick in a row. The strike is never
  taken back while the camera has no processor (`AiWatchdog.StopsExactly`, `AiWatchdog.StrikeNeverFades`, with a run in
  `AiWatchdog.StopsAcrossQuietTick`); and a degraded restart
  does not ask whether the camera is enabled (`AiWatchdog.StartsAreLegitimate`).
- `confirm_motion.py` says the deadline answers the caller. A request answers only after its thread has
  ended, however late (`ConfirmMotion.SuppressedExactly`, `ConfirmMotion.DeadlineFreesNothing`).
- The full-queue branch of the capture thread is meant to keep the newest frame. When the processing thread
  empties the queue between the two calls the newest frame is the one that goes (`FrameQueue.LostExactly`, with a run
  in `FrameQueue.NewestFrameIsLost`).
- The ladder takes a step back under overload in some run exactly when the load limits overlap, the window and the
  recovery cooldown are shorter than the degradation cooldown, and there is a level to lose
  (`QualityLadder.BackUnderOverloadExactly`); and a deeper level may ask for more frames if the configured factors are
  not falling (`QualityLadder.NeverRaisesExactly`).
- The worker takes a camera's data from whatever the API answers. An answer for another camera can leave a recorder's
  own camera active without it (`RecordingWorker.ForeignAnswerOrphans`).
- The same IPv4 address written as `::ffff:1.2.3.4` and as `::ffff:102:304` gets two families, so a range may hold one
  and not the other (`ProxyTrust.SameAddressExactly`, `ProxyTrust.MappedSpellingsDiffer`).
- The camera lists leave out the private camera of an owner without a permission row, which the gates let
  pass (`AccessControl.AccessibleExactly`, `AccessControl.PlaybackExactly`).
- Two alerts with the same new key in one heartbeat leave two entries (`AlertHistory.OneEntryPerKeyExactly`).

## Model

| member | source | states |
|---|---|---|
| RegionGeometry.ClipIsIntersection | services/ai-service-python/detectors/region_proposal.py:202-215 | clipping gives the largest in-frame part of a box, and nothing exactly when box and frame share no area |
| RegionGeometry.RoundIsNearest | services/ai-service-python/detectors/region_proposal.py:202-215 | the rounding of float coordinates is to a nearest integer and leaves integers alone |
| RegionGeometry.RoundTiesToEven | services/ai-service-python/detectors/region_proposal.py:202-215 | a coordinate halfway between two integers goes to the even one |
| RegionGeometry.ClipOfInFrame | services/ai-service-python/detectors/region_proposal.py:202-215 | a box already in the frame comes back unchanged |
| RegionGeometry.InsideIsPixelwise | services/ai-service-python/detectors/region_proposal.py:178-185 | one box is inside another exactly when each of its pixels is |
| RegionGeometry.IntersectsIsCommonPoint | services/ai-service-python/detectors/region_proposal.py:172-175 | two boxes touch exactly when they share a point, borders included |
| RegionGeometry.RegionCoversSource | services/ai-service-python/detectors/region_proposal.py:227-263 | a crop never cuts the visible part of the box it was built for, for any size and margin |
| RegionGeometry.RegionInFrameIff | services/ai-service-python/detectors/region_proposal.py:227-263 | a crop lies in the frame exactly when the frame is at least 4 by 4 |
| RegionGeometry.CropExactly | services/ai-service-python/detectors/region_proposal.py:227-263 | size and place of the crop of an in-frame box: per axis the box itself, or the minimum size or the largest multiple of 4 within the margin, cut to the frame, centred on the box and moved only as far as the border asks |
| RegionGeometry.CropIsUnique | services/ai-service-python/detectors/region_proposal.py:227-263 | size and place leave no choice |
| RegionGeometry.CropIsTight | services/ai-service-python/detectors/region_proposal.py:227-263 | each side is at most max(4, box side, min(frame side, max(minimum size, longer side times margin))), and on each axis the crop is centred to half a pixel or lies against the border |
| RegionGeometry.IouSymmetric | services/ai-service-python/detectors/region_proposal.py:188-199 | intersection over union does not depend on the order of the boxes |
| RegionGeometry.IouRange | services/ai-service-python/detectors/region_proposal.py:188-199 | intersection over union is between 0 and 1 |
| RegionGeometry.IouOfSelf | services/ai-service-python/detectors/region_proposal.py:188-199 | a nonempty box overlaps itself fully |
| RegionGeometry.IouExactly | services/ai-service-python/detectors/region_proposal.py:188-199 | the value times what the boxes cover together is the area of their largest common box, and it is 0 without one |
| RegionClusters.ShouldCluster | services/ai-service-python/detectors/region_proposal.py:283-317 | the method computes the joining rule: inside the boundary and worth at least the least-area gain |
| RegionClusters.GrowCluster | services/ai-service-python/detectors/region_proposal.py:283-317 | the inner loop computes the cluster grown from one box and the boxes it placed |
| RegionClusters.ClusterBoxes | services/ai-service-python/detectors/region_proposal.py:283-317 | the nested loops compute the clusters |
| RegionClusters.JoinsExactly | services/ai-service-python/detectors/region_proposal.py:300-312 | a box joins exactly when the crop of the hull stays within the minimum size or every member has at least a twentieth of its area |
| RegionClusters.BoundaryExactly | services/ai-service-python/detectors/region_proposal.py:266-280 | the area around the first box: its middle, the reach of a tenfold area less 0.55 of its side on each axis, truncated |
| RegionClusters.ClustersGrowExactly | services/ai-service-python/detectors/region_proposal.py:283-317 | each cluster starts at the first box left over, and then every box left over was offered in order and taken exactly if it lies in the boundary and joins the members so far |
| RegionClusters.ClusteringIsPartition | services/ai-service-python/detectors/region_proposal.py:283-317 | every box is in exactly one cluster exactly once, and clusters hold nothing else |
| RegionClusters.ClustersAreWorthwhile | services/ai-service-python/detectors/region_proposal.py:283-317 | every cluster stays within the boundary of its first box and keeps the area rule its boxes joined under |
| RegionClusters.HullHoldsMember | services/ai-service-python/detectors/region_proposal.py:320-330 | the hull of a cluster holds each of its boxes |
| RegionClusters.HullIsSmallest | services/ai-service-python/detectors/region_proposal.py:320-330 | and nothing smaller holds them |
| RegionClusters.ClusterRegionsCover | services/ai-service-python/detectors/region_proposal.py:320-330 | every in-frame box lies wholly inside the crop of the cluster it was put in |
| RegionBuild.DedupeRegions | services/ai-service-python/detectors/region_proposal.py:333-345 | the method computes the regions not contained in another |
| RegionBuild.OutermostExactly | services/ai-service-python/detectors/region_proposal.py:333-345 | exactly the regions not inside a different region survive |
| RegionBuild.OutermostKeepsCoverage | services/ai-service-python/detectors/region_proposal.py:333-345 | removing contained regions uncovers nothing |
| RegionBuild.OutermostInOrder | services/ai-service-python/detectors/region_proposal.py:333-345 | they stand in the order of their first occurrence, once each |
| RegionBuild.CheapestPair | services/ai-service-python/detectors/region_proposal.py:348-368 | the double loop finds the first pair whose union costs least |
| RegionBuild.CheapestIsUnique | services/ai-service-python/detectors/region_proposal.py:348-368 | the pair to fuse is determined |
| RegionBuild.CheapestIsLeast | services/ai-service-python/detectors/region_proposal.py:348-368 | it is the first pair whose common box has the fewest pixels |
| RegionBuild.CapRegions | services/ai-service-python/detectors/region_proposal.py:348-368 | the guarded loop computes the capped list |
| RegionBuild.CapSize | services/ai-service-python/detectors/region_proposal.py:348-368 | the exact number of regions after the cap, ceiling and 1000-round guard included |
| RegionBuild.CapIsFusions | services/ai-service-python/detectors/region_proposal.py:348-368 | the cap is a chain of fusions while there are too many regions and at most 1000: the cheapest pair gives way to the exact crop of its common box, without margin |
| RegionBuild.FinishedExactly | services/ai-service-python/detectors/region_proposal.py:333-382 | what comes out of containment removal, ceiling and sorting, region by region |
| RegionBuild.FewAreUnfused | services/ai-service-python/detectors/region_proposal.py:333-382 | with no region too many exactly the regions not inside another come out |
| RegionBuild.CapKeepsCoverage | services/ai-service-python/detectors/region_proposal.py:348-368 | the cap uncovers nothing and leaves no region outside the frame |
| RegionBuild.SortSorts | services/ai-service-python/detectors/region_proposal.py:371-382 | the final order is the tuple order over the same regions |
| RegionBuild.ClippedExactly | services/ai-service-python/detectors/region_proposal.py:371-382 | the boxes worked on are exactly the in-frame parts of the given ones |
| RegionBuild.ClippedInOrder | services/ai-service-python/detectors/region_proposal.py:371-382 | in their order, one for each box with a visible part |
| RegionBuild.BuildRegions | services/ai-service-python/detectors/region_proposal.py:371-382 | the method computes the crops, which CropsExactly pins one by one |
| RegionBuild.CropsExactly | services/ai-service-python/detectors/region_proposal.py:371-382 | the crops exactly: the exact crop of the hull of each cluster, less those inside another, fused from the cheapest pair on while there are too many, in tuple order |
| RegionBuild.OneBoxOneCrop | services/ai-service-python/detectors/region_proposal.py:371-382 | one motion box gives one crop, its own |
| RegionBuild.CropsCoverBoxes | services/ai-service-python/detectors/region_proposal.py:371-382 | every in-frame box is wholly inside some crop, crops are in frame, and there are none only without boxes |
| RegionBuild.BuildRegionsNeverDiscards | services/ai-service-python/detectors/region_proposal.py:371-382 | ceiling by fusion, never by discarding: the visible part of every motion box is wholly inside one crop, every crop is in the frame, and the ceiling holds for up to max_regions + 1000 boxes |
| IouDedupe.DedupeByIou | services/ai-service-python/detectors/region_proposal.py:410-438 | the method computes the deduplicated list |
| IouDedupe.KeptExactly | services/ai-service-python/detectors/region_proposal.py:410-438 | a detection survives exactly when no surviving one of its class, ahead in score order, overlaps it by the threshold |
| IouDedupe.DedupeExactly | services/ai-service-python/detectors/region_proposal.py:410-438 | the output written out: in input order, the detections that outrank, by score and then by position, every survivor of their class that overlaps them by the threshold |
| IouDedupe.KeptSeparated | services/ai-service-python/detectors/region_proposal.py:410-438 | no two survivors of one class overlap by the threshold |
| IouDedupe.DedupeProperties | services/ai-service-python/detectors/region_proposal.py:410-438 | the output is an in-order subsequence without same-class overlaps, and everything dropped is represented by a kept detection of its class that overlaps it and scores at least as much |
| IouDedupe.SeparatedIsFixed | services/ai-service-python/detectors/region_proposal.py:410-438 | a list without same-class overlaps is left alone |
| IouDedupe.DedupeIdempotent | services/ai-service-python/detectors/region_proposal.py:410-438 | a second pass changes nothing |
| RegionPlanner.MotionRegionPlanner.constructor | services/ai-service-python/detectors/region_proposal.py:476-491 | a new planner holds its configuration and an empty scene |
| RegionPlanner.MotionRegionPlanner.Reset | services/ai-service-python/detectors/region_proposal.py:496-497 | reset empties the cache and nothing else |
| RegionPlanner.MotionRegionPlanner.ReviewEntries | services/ai-service-python/detectors/region_proposal.py:517-543 | the loop over the cache computes the new entries, the carried detections and the forced crops |
| RegionPlanner.MotionRegionPlanner.Plan | services/ai-service-python/detectors/region_proposal.py:507-563 | the method computes the plan and the scene after it |
| RegionPlanner.MotionRegionPlanner.MatchOne | services/ai-service-python/detectors/region_proposal.py:565-629 | the inner loop finds the best cached object for a detection |
| RegionPlanner.MotionRegionPlanner.MatchAll | services/ai-service-python/detectors/region_proposal.py:565-629 | the outer loop matches every detection in turn |
| RegionPlanner.MotionRegionPlanner.Commit | services/ai-service-python/detectors/region_proposal.py:565-629 | the method computes the scene after the frame and the report, which AbsorbExactly, CommitKeepsExactly and ReportedExactly write out and EntryHasTrack explains |
| PlannerRuns.PlanCoversMotion | services/ai-service-python/detectors/region_proposal.py:507-563 | the visible part of every motion box is wholly inside a planned crop, crops are in frame, at most one above the ceiling |
| PlannerRuns.PlanCoversCache | services/ai-service-python/detectors/region_proposal.py:507-563 | every cached object is inside a planned crop or carried, and inside one on a sweep |
| PlannerRuns.NothingPlannedExactly | services/ai-service-python/detectors/region_proposal.py:550-563 | the model is not run at all exactly in a frame without motion and sweep whose cached objects are all carried, and there is one or idle frames are off |
| PlannerRuns.MotionEndsSkipping | services/ai-service-python/detectors/region_proposal.py:517-543 | a cached object touched by visible motion is inside a planned crop in that very frame |
| PlannerRuns.BestIsFirstMaximum | services/ai-service-python/detectors/region_proposal.py:565-629 | a detection goes to the first eligible cached object of largest overlap, and to none only if none is eligible |
| PlannerRuns.AbsorbFaithful | services/ai-service-python/detectors/region_proposal.py:565-629 | matching changes only what it matched: other objects keep their data, matched ones take class and time of a detection of this frame |
| PlannerRuns.AbsorbHoldsAll | services/ai-service-python/detectors/region_proposal.py:565-629 | afterwards every detection is held by its own cached object, none overwritten |
| PlannerRuns.UncoveredIsRecent | services/ai-service-python/detectors/region_proposal.py:507-563 | an object no planned crop holds was carried and is within its re-check interval |
| PlannerRuns.TickKeepsTended | services/ai-service-python/detectors/region_proposal.py:507-629 | one plan and commit keep every cached object in frame and recently inferred |
| PlannerRuns.RunsCoverAndRecheck | services/ai-service-python/detectors/region_proposal.py:507-629 | over every run whose planned crops all ran: motion is covered, each cached object is covered or carried, and none goes the re-check interval or a sweep period without being inferred |
| PlannerRuns.SkippedIsReported | services/ai-service-python/detectors/region_proposal.py:565-629 | over every run, every object still cached after a frame is reported in it, by itself or by an overlapping detection of its class that scores at least as much, and nothing twice |
| PlannerTracks.CarriedExactly | services/ai-service-python/detectors/region_proposal.py:517-535 | the carried detections are, in order, those of the objects that no motion crop holds, that stood still for the threshold, that no motion touches and that were looked at within the interval, marked with their skips |
| PlannerTracks.ForcedExactly | services/ai-service-python/detectors/region_proposal.py:517-548 | the forced crops are the exact crops of the objects neither held by a motion crop nor carried |
| PlannerTracks.MotionRegionsExactly | services/ai-service-python/detectors/region_proposal.py:507-516 | the motion crops are those of the visible parts, clipped once |
| PlannerTracks.PlanExactly | services/ai-service-python/detectors/region_proposal.py:550-563 | the planned regions exactly: those for motion, or with forced ones the outermost of both fused while too many; the whole frame added on a sweep, and alone on an idle frame |
| PlannerTracks.PlannedExactly | services/ai-service-python/detectors/region_proposal.py:507-563 | a plan counts frame, sweep and skips, and changes nothing else of a cached object |
| PlannerTracks.AbsorbExactly | services/ai-service-python/detectors/region_proposal.py:575-607 | matching leaves each object as it was, or with the detection it took and its count one up in place and 0 elsewhere, or first seen with a count of 0 |
| PlannerTracks.CommitKeepsExactly | services/ai-service-python/detectors/region_proposal.py:609-618 | the objects kept are those matched, and those that no executed crop held and that were seen less than the maximum age ago |
| PlannerTracks.ReportedExactly | services/ai-service-python/detectors/region_proposal.py:571-629 | a report holds detections and carried copies, none twice, each represented; without carried ones it is the merged detections |
| PlannerTracks.EntryHasTrack | services/ai-service-python/detectors/region_proposal.py:507-618 | over every run, whatever crops ran: a cached object is the last of a track of detections, and its count of motionless frames is the number of latest detections in a row in the place of the one before |
| PlannerTracks.CarriedExactlyInPlace | services/ai-service-python/detectors/region_proposal.py:517-535 | over every run an object is carried exactly when its last detections stood in place, as many as the threshold asks for, the last within the re-check interval, and the motion of the frame neither touches it nor crops it in; otherwise a planned crop holds it |
| PlannerTracks.RunIsBusyRun | services/ai-service-python/detectors/region_proposal.py:507-629 | the runs in which every planned crop ran are among these runs |
| PlannerAgeDrop.AgeDropNeedsSetting | services/ai-service-python/detectors/region_proposal.py:609-618 | an age drop in some run implies the setting of AgeDropExactly |
| PlannerAgeDrop.SettingAllowsAgeDrop | services/ai-service-python/detectors/region_proposal.py:609-618 | with that setting there is a run with an age drop |
| PlannerAgeDrop.AgeDropExactly | services/ai-service-python/detectors/region_proposal.py:116-120 | an object can leave the cache for its age although every planned crop ran exactly when skipping is on, the maximum age is below the interval, and the sweep is off or slower than the maximum age |
| PlannerBusyRuns.CallIsBusyTick | services/ai-service-python/detectors/object_detector.py:299-338 | whatever the pool and the model do, one call is one tick of the busy runs |
| PlannerBusyRuns.BusyRunIsGood | services/ai-service-python/detectors/region_proposal.py:565-629 | over every run, however many crops were busy, cached objects lie in the frame and carry their last detection |
| PlannerBusyRuns.BusyRunsCover | services/ai-service-python/detectors/region_proposal.py:507-629 | over every such run motion is inside a planned crop, each cached object is inside one or carried, and it stays unless matched, held by an executed crop, or unseen for the maximum age |
| PlannerBusyRuns.BusyAgeDropAlways | services/ai-service-python/detectors/region_proposal.py:609-618 | with a busy pool the age limit can take an object under every setting |
| ObjectDetector.LetterboxFits | services/ai-service-python/detectors/object_detector.py:201-214 | the scaled crop fits in the canvas with margins that are not negative |
| ObjectDetector.LetterboxExactly | services/ai-service-python/detectors/object_detector.py:201-214 | the scale is the largest that fits, one side fills the canvas, and the rounded sides are centred to a pixel |
| ObjectDetector.FromModelInverts | services/ai-service-python/detectors/object_detector.py:384-411 | a crop pixel sent through the letterbox comes back as itself |
| ObjectDetector.FromModelExactly | services/ai-service-python/detectors/object_detector.py:396-399 | a model coordinate is the crop pixel it falls in, or the edge it lies beyond |
| ObjectDetector.RowStaysInCrop | services/ai-service-python/detectors/object_detector.py:384-411 | whatever the model outputs, a detection is nonempty and lies in its crop |
| ObjectDetector.RowExactly | services/ai-service-python/detectors/object_detector.py:387-415 | a row is refused exactly when it is too short, of an unknown class, below its score, empty or too low; otherwise it is the shifted box with its class and score |
| ObjectDetector.DetectionIsWhereObjectIs | services/ai-service-python/detectors/object_detector.py:299-338 | crop, letterbox, clamp and shift undo each other: the object is reported where it is in the whole frame |
| ObjectDetector.Detector.RunRegions | services/ai-service-python/detectors/object_detector.py:318-332 | the loop over the plan computes the detections found and the crops really executed |
| ObjectDetector.RowsExactly | services/ai-service-python/detectors/object_detector.py:385-416 | of a crop every row not refused is found, once and in order |
| ObjectDetector.FoundExactly | services/ai-service-python/detectors/object_detector.py:316-337 | the detections of a frame are the accepted rows of the inferred crops: all of them, each once, crop by crop, and nothing else |
| ObjectDetector.ExecutedExactly | services/ai-service-python/detectors/object_detector.py:318-332 | the executed crops are those inferred, all of them and in order |
| ObjectDetector.Detector.InferByRegions | services/ai-service-python/detectors/object_detector.py:299-338 | one call plans, runs, commits and counts; FoundExactly and ObjectIsReported say what it finds and reports |
| ObjectDetector.ObjectIsReported | services/ai-service-python/detectors/object_detector.py:299-338 | end to end: an object in an inferred crop for which the model gives its row is found where it is, and is reported, by itself or by an overlapping detection of its class that scores at least as much; where objects are carried as well that one may itself stand behind another |
| ObjectDetector.FoundInExecuted | services/ai-service-python/detectors/object_detector.py:318-332 | every detection lies in the frame inside a crop that was executed |
| ObjectDetector.NoneBusyAllExecuted | services/ai-service-python/detectors/object_detector.py:318-332 | with a free pool every planned crop is executed |
| ObjectDetector.CallIsValidTick | services/ai-service-python/detectors/object_detector.py:299-338 | with a free pool one call is one tick of the planner runs, for any output of the model |
| ObjectDetector.ExecutedWereInferred | services/ai-service-python/detectors/object_detector.py:318-332 | only crops that were really inferred are reported to the planner as executed |
| ObjectDetector.BusyPoolKeepsObjects | services/ai-service-python/detectors/object_detector.py:318-338 | a busy pool removes nothing: an unmatched object below the age limit stays unless a crop holding it was inferred |
| MotionContrast.HistogramOrderStatistic | services/ai-service-python/detectors/motion_contrast.py:31-62 | the first level whose cumulative count exceeds k is the k-th value in sorted order |
| MotionContrast.PercentileIsExact | services/ai-service-python/detectors/motion_contrast.py:31-62 | the histogram percentile is that of the sorted pixels, for any pixels and any q |
| MotionContrast.PercentileInterpolates | services/ai-service-python/detectors/motion_contrast.py:31-62 | at rank r = (n - 1) * q / 100 of the sorted pixels t, with floor k, the percentile is t[k] + (r - k) * (t[k + 1] - t[k]) |
| MotionContrast.PercentileBoundsAndOrder | services/ai-service-python/detectors/motion_contrast.py:31-62 | the percentile lies between the darkest and the brightest pixel and never falls as q grows |
| MotionContrast.CountsForgetOrder | services/ai-service-python/detectors/motion_contrast.py:31-62 | the histogram forgets the order of the pixels and nothing else |
| MotionContrast.SortExists | services/ai-service-python/detectors/motion_contrast.py:31-62 | there is a sorted arrangement of the pixels to compare with |
| MotionContrast.StretchLut | services/ai-service-python/detectors/motion_contrast.py:65-77 | the lookup gives every pixel the stretch of its own level |
| MotionContrast.StretchExactly | services/ai-service-python/detectors/motion_contrast.py:65-77 | each pixel becomes black up to the low percentile, white from the high one on, and in between the whole part of 255 * (v - lo) / (hi - lo) |
| MotionContrast.StretchKeepsOrder | services/ai-service-python/detectors/motion_contrast.py:65-77 | the lookup table stays in byte range, keeps the order of levels, and sends both percentiles to the ends |
| MotionDetector.LargestComponents | services/ai-service-python/detectors/motion.py:284-309 | the loop computes the large components, largest first, up to the ceiling |
| MotionDetector.LargestExactly | services/ai-service-python/detectors/motion.py:284-309 | what is kept is big enough and in order, and what is left out is too small or no larger than anything kept of a full list |
| MotionDetector.ByAreaIsStable | services/ai-service-python/detectors/motion.py:306-309 | components of equal area stay in label order |
| MotionDetector.FirstIsBest | services/ai-service-python/detectors/motion.py:284-309 | the first component is the largest of all, and there is none exactly when none is big enough |
| MotionDetector.Detector.constructor | services/ai-service-python/detectors/motion.py:49-94 | a new detector has no background and zero counters |
| MotionDetector.Detector.CreateBackground | services/ai-service-python/detectors/motion.py:154-164 | a new background starts its warm-up and zeroes both counters |
| MotionDetector.Detector.Infer | services/ai-service-python/detectors/motion.py:166-282 | one frame moves the counters, chooses the learning rate and reports as the step function says |
| MotionDetector.CountersAreRun | services/ai-service-python/detectors/motion.py:207-282 | hit and streak counters always agree and are the length of the longest unbroken run of qualifying frames |
| MotionDetector.ReportsExactly | services/ai-service-python/detectors/motion.py:166-282 | a background with warm-up N is silent for its first max(0, N-1) frames; then a global change reports exactly with its switch on, and another frame exactly when it and enough frames before it qualify without a break for its largest component |
| MotionDetector.ReportShowsLargest | services/ai-service-python/detectors/motion.py:242-282 | a report shows the largest components, and the whole picture only for a global change that left none |
| MotionDetector.FrozenExactly | services/ai-service-python/detectors/motion.py:207-214 | the background stops learning exactly after 1 to the configured number of unbroken frames |
| MotionDetector.LearningRateExactly | services/ai-service-python/detectors/motion.py:207-214 | it learns fast exactly in the warm-up of a background and is left to itself in every other frame |
| MotionDetector.SceneChangesAreSpaced | services/ai-service-python/detectors/motion.py:242-258 | after a reported global change nothing is reported for the whole re-warm-up, at least three frames |
| CaptureRateGuard.Guard.constructor | services/ai-service-python/capture_rate_guard.py:59-85 | each limit and the expected rate are the given ones where usable, with their floors |
| CaptureRateGuard.Guard.SetExpectedFps | services/ai-service-python/capture_rate_guard.py:98-103 | a declared rate is learnt exactly when it is positive and plausible |
| CaptureRateGuard.Guard.Observe | services/ai-service-python/capture_rate_guard.py:116-164 | one observation moves the state and answers as the step function says; a bad clock changes nothing |
| CaptureRateGuard.Guard.SuggestedSleepSeconds | services/ai-service-python/capture_rate_guard.py:168-177 | the brake is off without an anomaly and paces at the threshold with one |
| CaptureRateGuard.SamplesAreWindow | services/ai-service-python/capture_rate_guard.py:107-132 | after every frame the stored samples are the times of exactly the frames within the window and the ceiling |
| CaptureRateGuard.SamplesBounded | services/ai-service-python/capture_rate_guard.py:116-132 | samples lie in the window and within the ceiling, the newest among them |
| CaptureRateGuard.RateHighIsAbnormal | services/ai-service-python/capture_rate_guard.py:107-142 | the comparison made is on the rate over the sliding window |
| CaptureRateGuard.ReportsExactly | services/ai-service-python/capture_rate_guard.py:116-164 | an alarm is raised exactly when the windowed rate was at or above its threshold at every frame since one at least sustain seconds earlier, and no alarm fell within the cooldown |
| CaptureRateGuard.CounterCountsAlarms | services/ai-service-python/capture_rate_guard.py:116-164 | the counter is the number of alarms, and the rate noted is that over the window |
| CaptureRateGuard.EventTells | services/ai-service-python/capture_rate_guard.py:142-160 | the numbers of an alarm: windowed rate, declared rate, that plus the margin, time since the stretch began, and how many alarms there were |
| CaptureRateGuard.AlarmsAreSpaced | services/ai-service-python/capture_rate_guard.py:116-164 | two alarms are at least the cooldown apart and none comes in the first sustain seconds |
| QualityLadder.InOrderIsLevel | services/ai-service-python/stream_processor.py:309-324 | a state in which later kinds start only when earlier ones are exhausted is a level of one line |
| QualityLadder.LevelsFormLine | services/ai-service-python/stream_processor.py:309-337 | a degradation is one level down the line and a recovery one back, the ends hold, and levels are distinct |
| QualityLadder.StepsUndo | services/ai-service-python/stream_processor.py:309-337 | degrading and relaxing undo each other exactly away from the ends |
| QualityLadder.DeeperNeverRaises | services/ai-service-python/stream_processor.py:669-717 | with falling factors a deeper level asks for no more frames, pixels or input size |
| QualityLadder.NeverRaisesExactly | services/ai-service-python/stream_processor.py:669-717 | for all wishes and levels, exactly when no positive factor is above an earlier one |
| QualityLadder.ApplyExactly | services/ai-service-python/stream_processor.py:669-717 | what a level asks for, number by number |
| QualityLadder.Ladder.constructor | services/ai-service-python/stream_processor.py:94-108 | every mode starts at its top level |
| QualityLadder.Ladder.Advance | services/ai-service-python/stream_processor.py:309-324 | the method takes the next step of the mode and touches no other mode |
| QualityLadder.Ladder.Relax | services/ai-service-python/stream_processor.py:326-337 | the method takes the last step of the mode back and touches no other mode |
| QualityLadder.Ladder.Evaluate | services/ai-service-python/stream_processor.py:346-388 | one evaluation moves clocks, counters and ladder as the step function says |
| QualityLadder.RunsStayInOrder | services/ai-service-python/stream_processor.py:309-388 | in every reachable state every mode stands on a level of its ladder |
| QualityLadder.LadderExactly | services/ai-service-python/stream_processor.py:346-388 | over every run what a tick does to each level: nothing within a window of the last evaluation or to other modes; one deeper under overload the cooldown after the last change, else one back on recovery |
| QualityLadder.MovesAreSpaced | services/ai-service-python/stream_processor.py:346-388 | two moves, of any modes, are at least the cooldown of the second apart |
| QualityLadder.LoadsOverlapExactly | services/ai-service-python/stream_processor.py:361-367 | some counters and processor load are both overload and recovery exactly when a low limit is above its high one, or equal to it at a value that can be met |
| QualityLadder.ChangeBeforeEvaluation | services/ai-service-python/stream_processor.py:346-388 | in every run the change clock is never ahead of the evaluation clock |
| QualityLadder.BackUnderOverloadExactly | services/ai-service-python/stream_processor.py:346-388 | some run takes a step back under overload exactly when the load limits overlap, window and recovery cooldown are both shorter than the degradation cooldown, and some mode has a level to lose |
| FrameQueue.RunsAreSound | services/ai-service-python/stream_processor.py:917-930 | in every interleaving the order, the account, the counters and the free slot are as they should be |
| FrameQueue.FramesAreConserved | services/ai-service-python/stream_processor.py:917-930 | frames are received in capture order, each captured frame ends in exactly one place, and at rest enqueued = received + dropped + waiting and captured = enqueued + lost |
| FrameQueue.NeverStuck | services/ai-service-python/stream_processor.py:917-993 | the capture thread never blocks, and the processing thread only until the capture thread takes one step |
| FrameQueue.CaptureAlone | services/ai-service-python/stream_processor.py:917-930 | the capture thread alone puts its frame in the free slot, or in place of the frame that waits |
| FrameQueue.ProcessAlone | services/ai-service-python/stream_processor.py:989-993 | the processing thread alone takes the frame that waits |
| FrameQueue.LostExactly | services/ai-service-python/stream_processor.py:922-930 | a frame is lost uncounted exactly when the queue was emptied after it was found full |
| FrameQueue.NewestFrameIsLost | services/ai-service-python/stream_processor.py:917-930 | a run of seven steps loses its newest frame while the queue is empty |
| FrameQueue.TakesNewest | services/ai-service-python/stream_processor.py:989-993 | what the processing thread takes is newer than anything put before |
| ConfirmMotion.ThreadsWithinCapacity | services/ai-service-python/confirm_motion.py:31-77 | in every interleaving no more threads work than permits exist, overdue ones included, and no permit is lost |
| ConfirmMotion.RequestIsServed | services/ai-service-python/confirm_motion.py:46-90 | with a permit free a request gets one, gives it back and answers the verdict of its call, or "don't know" where it raised |
| ConfirmMotion.LateRequestIsServed | services/ai-service-python/confirm_motion.py:46-90 | with the deadline in between it gives the permit back too and answers "don't know" |
| ConfirmMotion.SuppressedExactly | services/ai-service-python/confirm_motion.py:46-90 | a recording is suppressed exactly when the call itself said "no object" and was seen before its deadline; no request answers before its thread ended |
| ConfirmMotion.DeadlineFreesNothing | services/ai-service-python/confirm_motion.py:62-77 | a passed deadline frees no permit, and the request can answer exactly when its thread has ended |
| ConfirmMotion.NoObjectExactly | services/ai-service-python/confirm_motion.py:93-145 | "no object" is said only of a frame that was read, on which the detector worked and found nothing accepted |
| ModelRegistry.Registry.EnterLocked | services/ai-service-python/model_registry.py:36-45 | the first locked section decides between hit, loader and waiter |
| ModelRegistry.Registry.LeaveLocked | services/ai-service-python/model_registry.py:69-70 | the last locked section takes the registration away |
| ModelRegistry.Registry.Reset | services/ai-service-python/model_registry.py:99-109 | reset clears cache and registrations |
| ModelRegistry.Registry.EnsureDetector | services/ai-service-python/model_registry.py:22-72 | one undisturbed call returns the cached or the built detector and leaves no registration |
| ModelRegistry.LoneCall | services/ai-service-python/model_registry.py:22-72 | the same call, step by step among any other threads: what it returns, caches, signals and leaves registered |
| ModelRegistry.RunsKeepProtocol | services/ai-service-python/model_registry.py:22-72 | every step of every thread keeps the protocol |
| ModelRegistry.SafeBetweenResets | services/ai-service-python/model_registry.py:22-72 | between resets, in every interleaving: one loader per key, one successful load, one detector for everybody |
| ModelRegistry.ResetHarmlessExactly | services/ai-service-python/model_registry.py:99-109 | a reset keeps the one-detector promise for all later interleavings exactly when no thread is between winning a load and returning it |
| ModelRegistry.UnregisteredExactly | services/ai-service-python/model_registry.py:36-72 | over every run a registered key is unregistered later exactly when its loader has left and no other has come |
| ModelRegistry.LoadedExactly | services/ai-service-python/model_registry.py:55-72 | after a loader has left, and until another comes, the detector is in the cache exactly when its load succeeded |
| ModelRegistry.WaiterFailsExactly | services/ai-service-python/model_registry.py:36-53 | over every run without a reset, a thread told to wait fails at its lookup exactly when a loader of its key has left in between and no other has come, and the detector is there all the same exactly when that load succeeded |
| ModelRegistry.WaiterReturnsExactly | services/ai-service-python/model_registry.py:47-53 | a waiter that ends returns exactly when its key was registered at its lookup and cached when it woke, and then the one detector of its key; otherwise it raises |
| ModelRegistry.WaiterFailsAfterSuccess | services/ai-service-python/model_registry.py:47-53 | such a failure is reachable with the detector loaded |
| RecordingWorker.Worker.StartRecordingLocked | services/camera-worker-go/main.go:305-310 | starting marks the camera, stores a fresh cancel and starts one recorder |
| RecordingWorker.Worker.StopRecordingLocked | services/camera-worker-go/main.go:312-319 | stopping cancels the stored context and removes all three entries |
| RecordingWorker.Worker.CleanRemoved | services/camera-worker-go/main.go:229-240 | the first locked section stops exactly the cameras not in the list, in whatever order |
| RecordingWorker.Worker.ReconcileCamera | services/camera-worker-go/main.go:242-260 | one camera of the list is started, stopped or left alone |
| RecordingWorker.Worker.ReconcilePass | services/camera-worker-go/main.go:223-267 | a whole pass with nothing interleaved computes the pass function |
| RecordingWorker.Worker.HandleRecordingCommand | services/camera-worker-go/main.go:442-480 | START leaves the fetched camera active exactly when it is enabled or was active and cancels nothing, STOP leaves the named one inactive, neither touches another camera; anything else, or a failed fetch, does nothing |
| RecordingWorker.StopExactly | services/camera-worker-go/main.go:470-475 | STOP cancels the context stored for the named camera if it was active, takes its three entries away, and touches no other camera and no recorder |
| RecordingWorker.StartExactly | services/camera-worker-go/main.go:447-469 | START leaves the camera active exactly when it is enabled or was active, notes the segment length, starts one recorder if none ran, cancels nothing and touches no other camera |
| RecordingWorker.ReconcileExactly | services/camera-worker-go/main.go:242-260 | one camera of the list is forgotten, gets its recorder or stays as it is, and no other is touched |
| RecordingWorker.RecorderStopExactly | services/camera-worker-go/recorder.go:24-64 | a recorder that finds its camera disabled or recovers from a panic forgets that camera, touches no other, and returns |
| RecordingWorker.Worker.SegmentGate | services/camera-worker-go/recorder.go:40-64 | the checks at the start of a segment, and whether the recorder goes on |
| RecordingWorker.SegmentStartsExactly | services/camera-worker-go/recorder.go:40-64 | a recorder goes on exactly when the camera its refresh gave is active and not disabled |
| RecordingWorker.StopTwice | services/camera-worker-go/main.go:312-319 | stopping one set and then another is stopping both |
| RecordingWorker.NextKeepsConsistent | services/camera-worker-go/recorder.go:24-192 | every event keeps the three maps and the contexts consistent |
| RecordingWorker.RunsAreConsistent | services/camera-worker-go/recorder.go:24-192 | so every run does |
| RecordingWorker.ActiveMeansOneRecorder | services/camera-worker-go/main.go:220-319 | in every interleaving of passes, commands, recorder steps and panics, whatever the API answers, a camera is active exactly when one recorder of it has an uncancelled context, never two, with its cancel stored; and that recorder has not returned where refreshes are answered with the recorder's own camera |
| RecordingWorker.ActiveAfterExactly | services/camera-worker-go/main.go:220-319 | which cameras are active after each event, from any state |
| RecordingWorker.ContextsFollowActivity | services/camera-worker-go/main.go:305-319 | over every run an event cancels a context exactly when the camera of that context stops being active by it, and starts exactly the recorder of a camera that becomes active |
| RecordingWorker.OneContextPerActiveCamera | services/camera-worker-go/main.go:305-319 | there are as many uncancelled contexts as active cameras |
| RecordingWorker.PassDecides | services/camera-worker-go/main.go:242-260 | for each camera the last mention in the list decides |
| RecordingWorker.PassLeavesRecordable | services/camera-worker-go/main.go:223-267 | a pass with nothing interleaved ends with exactly the recordable cameras of the list active, from any state |
| RecordingWorker.StopHitsSuccessorExactly | services/camera-worker-go/recorder.go:24-64 | a recorder that stops a camera cancels another recorder exactly when that camera is active and is not its own, or its own context was cancelled and the camera started again |
| RecordingWorker.StaleRecorderStopsRestartedCamera | services/camera-worker-go/recorder.go:40-64 | such a run exists |
| RecordingWorker.ForeignAnswerOrphans | services/camera-worker-go/recorder.go:40-52 | a refresh answered with another camera can leave a camera active whose recorder has returned |
| AccessControl.GetMaxPermissionLevel | apps/api/src/access-control/access-control.service.ts:124-155 | the loop computes the highest level of the rows that concern the camera |
| AccessControl.MaxPermissionIsGrant | apps/api/src/access-control/access-control.service.ts:124-170 | the highest level reaches a minimum exactly when some row grants it |
| AccessControl.DirectGateOnPrivate | apps/api/src/access-control/access-control.service.ts:172-210 | a private camera is viewed exactly by its owner and by holders of a direct row |
| AccessControl.UseExactly | apps/api/src/access-control/access-control.service.ts:115-235 | who may use a camera at a level, written out by role, owner, row and the state of its group |
| AccessControl.PlaybackGateExactly | apps/api/src/access-control/access-control.service.ts:257-270 | history asks for live access, and of an ordinary user that the group is not restricted |
| AccessControl.AccessibleExactly | apps/api/src/access-control/access-control.service.ts:29-78 | the live list and the live gate agree on every existing camera, except the private camera of an owner without a row |
| AccessControl.PlaybackExactly | apps/api/src/access-control/access-control.service.ts:257-303 | the history list and the history gate agree in the same way |
| AccessControl.ListedIdsPass | apps/api/src/access-control/access-control.service.ts:29-78 | with valid references every listed id is a camera that passes its gate |
| AccessControl.PrivacyIgnoresRole | apps/api/src/access-control/access-control.service.ts:172-200 | no role opens a private camera |
| AccessControl.SuspensionCutsExactly | apps/api/src/access-control/access-control.service.ts:115-122 | suspending a group takes away exactly the live access that came through it |
| AccessControl.RestrictionKeepsLive | apps/api/src/access-control/access-control.service.ts:257-303 | restricting a group, whatever its status, leaves live access alone or gives back what suspension had taken, takes the history of its cameras from ordinary users, and touches no other camera |
| AiWatchdog.PerformSyncAll | apps/api/src/ai/ai-manager.service.ts:313-374 | a sync asks the AI service for exactly these calls, errors of the policy included |
| AiWatchdog.SyncStartsExactly | apps/api/src/ai/ai-manager.service.ts:338-366 | a sync starts exactly the selected cameras |
| AiWatchdog.SyncOrderExactly | apps/api/src/ai/ai-manager.service.ts:338-366 | in list order, once each, by the rule written out |
| AiWatchdog.StartsExactly | apps/api/src/ai/ai-manager.service.ts:380-430 | when a start goes through, is disabled, or is refused by the policy |
| AiWatchdog.RecoveryCooldown | apps/api/src/ai/ai-manager.service.ts:132-139 | the cooldown is ten minutes, or as configured but never below two |
| AiWatchdog.StartsAreLegitimate | apps/api/src/ai/ai-manager.service.ts:380-430 | what a sync or the absent-processor branch starts is in the set the stray pass spares; a degraded restart is exactly when the camera is enabled |
| AiWatchdog.SyncAgreesWithRestart | apps/api/src/ai/ai-manager.service.ts:338-428 | in motion mode a sync and an absent-processor restart choose the same cameras |
| AiWatchdog.Watchdog.Take | apps/api/src/ai/ai-manager.service.ts:192-298 | each undisturbed stretch of a tick computes its step |
| AiWatchdog.Watchdog.RestartAbsent | apps/api/src/ai/ai-manager.service.ts:207-221 | the loop over armed cameras is its steps in order |
| AiWatchdog.Watchdog.StopStray | apps/api/src/ai/ai-manager.service.ts:248-261 | the loop over active processors is its steps in order |
| AiWatchdog.Watchdog.RestartDegraded | apps/api/src/ai/ai-manager.service.ts:268-293 | the loop over degraded processors is its steps in order |
| AiWatchdog.Watchdog.RecoverDegradedProcessors | apps/api/src/ai/ai-manager.service.ts:192-298 | a tick is its steps in order, cut where a call fails |
| AiWatchdog.TickExactly | apps/api/src/ai/ai-manager.service.ts:192-298 | which passes a tick consists of, for every answer and every failed reading |
| AiWatchdog.AbsentExactly | apps/api/src/ai/ai-manager.service.ts:202-221 | the absent pass looks at the armed cameras without a processor, in order |
| AiWatchdog.StrayExactly | apps/api/src/ai/ai-manager.service.ts:241-261 | the stray pass looks at every processor and spares those of enabled cameras with detection on |
| AiWatchdog.CallsExactly | apps/api/src/ai/ai-manager.service.ts:207-293 | what each step asks of the AI service |
| AiWatchdog.RecoversExactly | apps/api/src/ai/ai-manager.service.ts:207-293 | in any sequence of steps, overlapping ticks included: a camera is restarted exactly when none of its recoveries fell within the wait and, for a degraded one, a sighting came before with no strike taken back since |
| AiWatchdog.RecoveriesAreSpaced | apps/api/src/ai/ai-manager.service.ts:213-276 | two recoveries of a camera are at least the wait of the second apart, never under two minutes |
| AiWatchdog.RestartNeedsTwoTicks | apps/api/src/ai/ai-manager.service.ts:192-293 | over every run of ticks a degraded camera is restarted only after an earlier tick saw it degraded, and every answered tick from then on listed it |
| AiWatchdog.StopsExactly | apps/api/src/ai/ai-manager.service.ts:248-261 | a stray processor is stopped exactly when its camera is not legitimate now and was not at the last look, unless that look stopped it |
| AiWatchdog.StrikeNeverFades | apps/api/src/ai/ai-manager.service.ts:248-261 | the strike outlasts any number of ticks without a processor |
| AiWatchdog.StopsAcrossQuietTick | apps/api/src/ai/ai-manager.service.ts:248-261 | a run of three ticks stops a camera that had no processor in the second |
| AiWatchdog.StartedIsNeverStray | apps/api/src/ai/ai-manager.service.ts:192-298 | over every run of ticks with the same cameras, the stray pass stops no camera that a sync or an absent restart starts |
| AlertHistory.IndexByKey | apps/central/src/server.js:725 | an alert is counted on the last entry of its key |
| AlertHistory.UpdateAlertHistory | apps/central/src/server.js:722-765 | the loops, the sort and the cut compute the new history |
| AlertHistory.EvolvedExactly | apps/central/src/server.js:748-762 | one heartbeat leaves an entry touched once and active if carried, and otherwise inactive with its resolution time |
| AlertHistory.CombinedExactly | apps/central/src/server.js:722-762 | before the cut the entries are exactly the old ones evolved and one for each alert with an unknown key |
| AlertHistory.AddedInOrder | apps/central/src/server.js:727-743 | the new entries stand in the order of their alerts |
| AlertHistory.ByRecencySorts | apps/central/src/server.js:762-765 | the order is most recently seen first and keeps entries apart |
| AlertHistory.ByRecencyIsStable | apps/central/src/server.js:762-765 | entries last seen at the same time stay in their order |
| AlertHistory.TrimDropsOldest | apps/central/src/server.js:762-765 | the cut drops only entries no more recent than every kept one, and only from a full list |
| AlertHistory.OneEntryPerKeyExactly | apps/central/src/server.js:722-765 | where nothing is cut, one entry per key is left exactly when no unknown key came twice |
| AlertHistory.ActiveExactly | apps/central/src/server.js:722-765 | the active entries are those of the alerts just received, all of them exactly when they fit the ceiling |
| AlertHistory.EntryTells | apps/central/src/server.js:722-765 | each entry knows when its key came up, when it was last carried, how often since, and when it was resolved |
| AlertHistory.EntryShows | apps/central/src/server.js:727-757 | over every steady history an entry shows the latest level, code and message its key came with since it came up, or the defaults |
| AlertHistory.HistoryTellsTruth | apps/central/src/server.js:722-765 | after any steady history: one entry per key, latest first, every entry true, the active ones exactly the last alerts |
| AlertHistory.ForgottenIsOldest | apps/central/src/server.js:722-765 | a key no longer listed was pushed out by a full list of entries at least as recent |
| AlertHistory.NothingForgotten | apps/central/src/server.js:722-765 | while no more keys came up than the ceiling, none is forgotten |
| AlertHistory.OccurrencesCountAll | apps/central/src/server.js:722-765 | and then an entry has counted every heartbeat that carried its key |
| InstallerGrants.Granted | apps/central/src/installer-security.js:221-224 | a grant is what is asked for between 1 and 10, 3 if nothing is |
| InstallerGrants.Installation.IssueGrant | apps/central/src/installer-security.js:179-231 | issuing binds the artifact and the token as the step function says, and throws before changing anything |
| InstallerGrants.Installation.ConsumeDownload | apps/central/src/installer-security.js:233-245 | an active token loses one download, any other call changes nothing |
| InstallerGrants.Installation.QuickInstall | apps/central/src/server.js:1409-1453 | the script is served exactly to the current active token |
| InstallerGrants.InForceIsRemembered | apps/central/src/installer-security.js:179-245 | while a token is current, remaining + served = granted and the lifetime is that of its issue |
| InstallerGrants.IssuesExactly | apps/central/src/installer-security.js:215-226 | over every run a new token is handed out exactly by a valid issue that may create one and rotates it or finds none usable |
| InstallerGrants.UsesAreNoted | apps/central/src/installer-security.js:233-245 | the last use of the token in force is noted, and once more when it used up the grant |
| InstallerGrants.ServedExactly | apps/central/src/server.js:1409-1453 | over every run a download is served exactly with the last issued token, in its lifetime, with fewer than granted served before |
| InstallerGrants.GrantIsCeiling | apps/central/src/installer-security.js:179-245 | over every run one issued token allows at most its grant |
| InstallerGrants.ArtifactIsOfBinding | apps/central/src/installer-security.js:195-213 | over every run the bound artifact is that of the last valid issue that rotates or, where none does, of the first valid issue |
| InstallerGrants.BindingExists | apps/central/src/installer-security.js:195-213 | in every run with a valid issue one issue is the binding one |
| InstallerGrants.QuietIssueKeepsToken | apps/central/src/installer-security.js:215-226 | an issue that does not rotate leaves an active token alone |
| ProxyTrust.NumeralRoundTrip | apps/central/src/proxy-trust.js:11-41 | a number written in a base is read back as itself |
| ProxyTrust.SplitJoin | apps/central/src/proxy-trust.js:11-41 | splitting undoes joining |
| ProxyTrust.SplitDoubleOnce | apps/central/src/proxy-trust.js:25-27 | a double colon splits a spelling once |
| ProxyTrust.Ipv4ReadsDotted | apps/central/src/proxy-trust.js:11-15 | dotted decimal is read as its four octets |
| ProxyTrust.UntailedText | apps/central/src/proxy-trust.js:19-24 | an IPv4 tail is replaced by the two groups it stands for |
| ProxyTrust.ReadsSpelling | apps/central/src/proxy-trust.js:17-41 | every spelling of section 2.2 of RFC 4291, full, compressed or with an IPv4 tail, in either case, is read as the number of its eight words |
| ProxyTrust.SpellingsAgreeExactly | apps/central/src/proxy-trust.js:17-41 | two spellings are read as the same number exactly when they stand for the same words |
| ProxyTrust.NormalizedText | apps/central/src/proxy-trust.js:5-9 | normalisation leaves every spelling as it is, in lower case, except the mapped one, of which it leaves the IPv4 tail |
| ProxyTrust.ReadsAddress | apps/central/src/proxy-trust.js:43-49 | dotted decimal and every spelling get the family and number they stand for |
| ProxyTrust.SameAddressExactly | apps/central/src/proxy-trust.js:43-49 | two spellings are the same address exactly when they stand for the same words and both or neither are written with the mapped prefix and an IPv4 tail; dotted decimal is the same as a spelling exactly when it is so written over the same tail |
| ProxyTrust.MappedSpellingsDiffer | apps/central/src/proxy-trust.js:5-9 | every IPv4 address has two spellings of the same words that are different addresses |
| ProxyTrust.AcceptedFits | apps/central/src/proxy-trust.js:17-41 | whatever text is accepted, the number has at most 128 bits |
| ProxyTrust.TrustedExactly | apps/central/src/proxy-trust.js:72-85 | a client is trusted exactly when it lies between the first and the last address of a range of its family |
| ProxyTrust.EntryCoversExactly | apps/central/src/proxy-trust.js:51-63 | an entry covers exactly the addresses of its family that share its first prefix bits |
| ProxyTrust.ParseEntryExactly | apps/central/src/proxy-trust.js:51-63 | an entry without a prefix covers its own address alone, and a prefix is refused exactly when it is no number of bits |
| ChartDownsample.DownsamplePoints | apps/central/public/chart-utils.js:257-290 | the loops compute the thinned series |
| ChartDownsample.BucketHolds | apps/central/public/chart-utils.js:257-290 | every index is in some bucket |
| ChartDownsample.BucketIsShare | apps/central/public/chart-utils.js:262-268 | bucket b of k covers the points from b n / k up to (b + 1) n / k |
| ChartDownsample.DownsampleExactly | apps/central/public/chart-utils.js:257-290 | exactly which points are kept: all up to the ceiling; otherwise both ends and, of each bucket, the first minimum and the first maximum of every field, or its first point if no field is asked for |
| ChartDownsample.ExtremesAreKept | apps/central/public/chart-utils.js:257-290 | some kept point of the series is at least as extreme as any, in either direction, for every requested field |
| ChartDownsample.DownsamplePreserves | apps/central/public/chart-utils.js:251-290 | for every requested field the thinned series reaches as high and as low as the whole one |
| ChartDownsample.DownsampleIsSelection | apps/central/public/chart-utils.js:251-290 | it is an in-order selection with the first and the last point |
| ChartDownsample.DownsampleSize | apps/central/public/chart-utils.js:251-290 | it has at most max(maxPoints, 2 different fields) + 2 points |
| ChartDownsample.DocumentedSizeExactly | apps/central/public/chart-utils.js:251-290 | the documented maxPoints + 2 holds for every series exactly when maxPoints is at least twice the number of different fields |
| ChartScale.Log10Exactly | apps/central/public/chart-utils.js:294-301 | the power of ten is the one just below the step asked for |
| ChartScale.NiceStepIsClose | apps/central/public/chart-utils.js:294-301 | the step is 1, 2, 5 or 10 times a power of ten, above two thirds and at most five thirds of the step asked for |
| ChartScale.NiceStepExactly | apps/central/public/chart-utils.js:294-301 | which of 1, 2, 5 and 10 times the power of ten below it is, by the limits 1.5, 3 and 7 |
| ChartScale.ComputeScale | apps/central/public/chart-utils.js:308-357 | the method computes bounds, step and ticks |
| ChartScale.TicksExactly | apps/central/public/chart-utils.js:350-356 | the axis starts at the rounded bottom and ends at or above the rounded top; ticks ascend, are the regular ones that fit up to rounding, at most one more at the top, and none is missing unless the sixty-fifth would fit |
| ChartScale.TicksReachTop | apps/central/public/chart-utils.js:350-356 | with up to 41 ticks asked for none is missing |
| ChartScale.SpanIsPositive | apps/central/public/chart-utils.js:303-307 | the span is positive whatever is given or forced |
| ChartScale.ScaleCovers | apps/central/public/chart-utils.js:308-357 | no value falls off a side that is not forced, nor zero if it is to be included |
| ChartScale.AskedExactly | apps/central/public/chart-utils.js:321-333 | the bounds asked for are the forced ones, or the least and the greatest of the values, and of zero if included |
| ChartScale.StepExactly | apps/central/public/chart-utils.js:340-348 | the step is the round one for the ticks asked for, rounded up for whole numbers |
| ChartScale.BoundsExactly | apps/central/public/chart-utils.js:335-348 | bounds that coincide are pulled apart by half their size, an unforced side goes out to the next multiple of the step and no further, and inverted bounds are one apart |
| ChartScale.ForcedHonouredExactly | apps/central/public/chart-utils.js:308-348 | a forced lower bound is the bound exactly unless the bounds coincide away from zero; a forced upper one exactly when above the lower bound asked for, or below it but above the whole number an unforced lower bound is rounded down to |
| ChartScale.ProjectYReverses | apps/central/public/chart-utils.js:360-367 | values land on the plot upside down, strictly inside the scale, with both ends on the ends |
| ChartScale.ProjectYExactly | apps/central/public/chart-utils.js:360-367 | the vertical projection is linear inside the scale and clamps outside |
| ChartScale.ProjectXExactly | apps/central/public/chart-utils.js:370-376 | the horizontal one spreads the points evenly from edge to edge |
| ChartScale.NearestInvertsProjection | apps/central/public/chart-utils.js:370-376 | pointing at a projected point finds it |
| ChartScale.NearestIsNearest | apps/central/public/chart-utils.js:416-421 | the point found is at least as near as any other |

## Left out

- Rounding of floating point: numbers the program holds as floats are reals.
- Aliasing: cached entries, alert entries and detections are values; an update replaces the value in its list.
- The clusterer, planner and detectors read their settings as given; parsing of the environment is not modelled.
- RegionPlanner.MotionRegionPlanner.Commit: the exception path of `_carry` on foreign detection types is not modelled.
- The tracker behind `_track_people`, the models, OpenCV, ffmpeg, RTSP and the databases: their answers are inputs.
- MotionDetector: the contrast ring buffer, zone masks and the scaling of boxes to the original picture; a frame arrives as pixels and components.
- MotionDetector.BigEnough: components come in label order, as the foreign call lists them.
- CaptureRateGuard.Guard.Observe: the two-digit rounding of the numbers in an alarm is not modelled.
- RecordingWorker.Worker.HandleRecordingCommand: the action is taken in lower case.
- RecordingWorker: process shutdown, the status probe, and the recording work between two checks of a recorder.
- ModelRegistry: the 120-second limit of the wait is any step of the waiter; the detector's own state is not modelled.
- AccessControl: the administration gates, which ask the permission level alone.
- AiWatchdog.Watchdog.RecoverDegradedProcessors: one reading of the clock serves a check and the time it stores; events registered after a restart are left out.
- AiWatchdog: matching of a camera to the environment's tokens is a field of the camera.
- AlertHistory: an alert arrives with its key; trimming, case folding and cutting of the key text are left out.
- InstallerGrants: digests stand for tokens, the checks of an artifact are one truth value, and requests are taken one at a time.
- ProxyTrust: which strings are addresses is decided by the platform; blanks, brackets and zones stripped by `normalizeIp` are left out.
- ProxyTrust.Ipv4ToInt: octets above 255, which the platform refuses, are added and not or-ed.
- secret_input.go: hiding an address from a command line; its parsing and quoting rules belong to foreign tools.
- ConfirmMotion: cancellation of the handler task; the deadline may pass at any moment before the request sees the end of its thread.
- FrameQueue: stopping the threads; captured frames are numbers.
- QualityLadder: parsing of the step lists, the CPU reading, and live-view leases, which pick the mode.
- ChartScale, ChartDownsample: coercion of non-numbers; a value is a number or absent.
- stream_processor.py: the overlay hysteresis and the debounce of events, which would only add easy members.
- server.js: revisions, licences, the other handlers and all HTTP; bumpConfigRevision is a counter.
- User interfaces, installers, mobile app, seeds and import scripts.
