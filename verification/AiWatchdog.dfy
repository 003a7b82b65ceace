/**
  The AI watchdog (`AiManagerService`). Between two awaits the program runs undisturbed, so a tick is a
  sequence of atomic steps and the run theorems hold of any sequence of such steps, overlapping ticks
  included. Times are in milliseconds.
 */
module AiWatchdog {
  import opened Wrappers

  type CameraId = string

  datatype Camera = Camera(
    id: CameraId, enabled: bool, aiEnabled: bool, allowedByEnv: bool, recordingMode: string, motionTrigger: string)

  datatype AiSettings = AiSettings(enabled: bool, mode: string)

  /** What the commercial policy answers; `None` when asking failed. */
  datatype Policy = Policy(motion: Option<bool>, advanced: Option<bool>)

  // ---------------------------------------------------------------------------------------------
  // Who may be started
  // ---------------------------------------------------------------------------------------------

  /** Movement fails open, objects and faces fail closed. */
  predicate MotionAllowed(p: Policy) { p.motion.Some? ==> p.motion.value }

  predicate AdvancedAllowed(p: Policy) { p.advanced.Some? && p.advanced.value }

  datatype Outcome = Disabled | CommercialRestriction | CameraDisabled | NotArmed | CameraSelfDetection | Starts

  /** `startCamera` on a camera that exists. */
  function StartCamera(s: AiSettings, p: Policy, cam: Camera, allowCameraTrigger: bool, liveAutoStart: bool): Outcome {
    if !s.enabled then Disabled
    else if !MotionAllowed(p) then CommercialRestriction
    else if s.mode != "motion" && !AdvancedAllowed(p) then CommercialRestriction
    else if !cam.aiEnabled || !cam.allowedByEnv then CameraDisabled
    else if liveAutoStart && s.mode == "motion" && cam.recordingMode != "motion" then NotArmed
    else if s.mode == "motion" && cam.motionTrigger != "SYSTEM" && !allowCameraTrigger then CameraSelfDetection
    else Starts
  }

  datatype ServiceCall =
    | StopAll
    | ResetModels
    | Start(id: CameraId, mode: string)

  function SyncMode(s: AiSettings, p: Policy): string {
    if s.mode != "motion" && !AdvancedAllowed(p) then "motion" else s.mode
  }

  predicate SyncSelects(mode: string, cam: Camera) {
    && cam.enabled && cam.aiEnabled && cam.allowedByEnv
    && (mode == "motion" ==> cam.recordingMode == "motion" && cam.motionTrigger == "SYSTEM")
  }

  function SyncStarts(mode: string, cameras: seq<Camera>): (calls: seq<ServiceCall>) {
    if cameras == [] then []
    else
      var cam := cameras[|cameras| - 1];
      SyncStarts(mode, cameras[..|cameras| - 1]) + if SyncSelects(mode, cam) then [Start(cam.id, mode)] else []
  }

  /** `performSyncAll`: what it asks of the AI service. */
  method PerformSyncAll(s: AiSettings, p: Policy, cameras: seq<Camera>) returns (calls: seq<ServiceCall>)
    ensures calls ==
            if p.motion == Some(false) then [StopAll]
            else if s.mode != "motion" && p.advanced == None then []
            else if !s.enabled then [StopAll]
            else [StopAll, ResetModels]
                 + SyncStarts(if s.mode != "motion" && p.advanced != Some(true) then "motion" else s.mode, cameras)
  {
    if !MotionAllowed(p) {
      return [StopAll];
    }
    var mode := s.mode;
    if s.mode != "motion" {
      if p.advanced.None? {
        return [];
      }
      if !p.advanced.value {
        mode := "motion";
      }
    }
    if !s.enabled {
      return [StopAll];
    }
    calls := [StopAll, ResetModels];
    for i := 0 to |cameras|
      invariant calls == [StopAll, ResetModels] + SyncStarts(mode, cameras[..i])
    {
      var cam := cameras[i];
      assert cameras[..i + 1][..i] == cameras[..i];
      if SyncSelects(mode, cam) {
        calls := calls + [Start(cam.id, mode)];
      }
    }
    assert cameras[..|cameras|] == cameras;
  }

  /** The set the stray pass spares. */
  predicate Legitimate(cam: Camera) { cam.enabled && cam.aiEnabled }

  /** The cameras the absent-processor branch looks after. */
  predicate Armed(cam: Camera) { cam.recordingMode == "motion" && cam.motionTrigger == "SYSTEM" && cam.enabled }

  predicate UniqueIds(cameras: seq<Camera>) {
    forall a, b | a in cameras && b in cameras && a.id == b.id :: a == b
  }

  function LegitimateIds(cameras: seq<Camera>): set<CameraId> { set cam | cam in cameras && Legitimate(cam) :: cam.id }

  lemma {:induction false} SyncStartsExactly(mode: string, cameras: seq<Camera>, c: ServiceCall)
    ensures c in SyncStarts(mode, cameras) <==> exists cam :: cam in cameras && SyncSelects(mode, cam) && c == Start(cam.id, mode)
  {
    if cameras != [] {
      var rest := cameras[..|cameras| - 1];
      assert cameras == rest + [cameras[|cameras| - 1]];
      SyncStartsExactly(mode, rest, c);
    }
  }

  /** A sync starts, in list order and once each: the enabled cameras, in motion mode only the armed ones that rely on the system. */
  lemma {:induction false} SyncOrderExactly(mode: string, cameras: seq<Camera>) returns (at: seq<nat>)
    ensures |at| == |SyncStarts(mode, cameras)| && forall p, q | 0 <= p < q < |at| :: at[p] < at[q]
    ensures forall p | 0 <= p < |at| :: at[p] < |cameras| && SyncStarts(mode, cameras)[p] == Start(cameras[at[p]].id, mode)
    ensures forall i: nat | i < |cameras| ::
              i in at <==> && cameras[i].enabled && cameras[i].aiEnabled && cameras[i].allowedByEnv
                           && (mode != "motion" || (cameras[i].recordingMode == "motion" && cameras[i].motionTrigger == "SYSTEM"))
  {
    at := [];
    if cameras != [] {
      var n := |cameras| - 1;
      at := SyncOrderExactly(mode, cameras[..n]);
      assert forall i: nat | i < n :: cameras[..n][i] == cameras[i];
      if SyncSelects(mode, cameras[n]) {
        at := at + [n];
      }
    }
  }

  /**
    A camera is started exactly when the AI is on, the policy does not forbid motion and, in another mode, allows the
    advanced kinds, the camera may be analysed, and in motion mode a live view starts armed cameras only and a camera
    with its own detection is started only where that is allowed.
   */
  lemma StartsExactly(s: AiSettings, p: Policy, cam: Camera, allowCameraTrigger: bool, liveAutoStart: bool)
    ensures StartCamera(s, p, cam, allowCameraTrigger, liveAutoStart) == Starts <==>
            && s.enabled && p.motion != Some(false) && cam.aiEnabled && cam.allowedByEnv
            && if s.mode != "motion" then p.advanced == Some(true)
               else (liveAutoStart ==> cam.recordingMode == "motion") && (cam.motionTrigger == "SYSTEM" || allowCameraTrigger)
    ensures StartCamera(s, p, cam, allowCameraTrigger, liveAutoStart) == Disabled <==> !s.enabled
    ensures StartCamera(s, p, cam, allowCameraTrigger, liveAutoStart) == CommercialRestriction <==>
            s.enabled && (p.motion == Some(false) || (s.mode != "motion" && p.advanced != Some(true)))
  {
  }

  /**
    Start and stop agree: what a sync starts, and what the absent-processor branch starts, is in the set the
    stray pass spares. A degraded restart is, exactly when the camera is enabled, which that branch never asks.
   */
  lemma StartsAreLegitimate(s: AiSettings, p: Policy, cameras: seq<Camera>, cam: Camera)
    requires cam in cameras && UniqueIds(cameras)
    ensures Start(cam.id, SyncMode(s, p)) in SyncStarts(SyncMode(s, p), cameras) ==> cam.id in LegitimateIds(cameras)
    ensures Armed(cam) && StartCamera(s, p, cam, false, false) == Starts ==> cam.id in LegitimateIds(cameras)
    ensures StartCamera(s, p, cam, true, false) == Starts ==> (cam.id in LegitimateIds(cameras) <==> cam.enabled)
  {
    SyncStartsExactly(SyncMode(s, p), cameras, Start(cam.id, SyncMode(s, p)));
  }

  /** In motion mode a sync and a later absent-processor start choose the same cameras. */
  lemma SyncAgreesWithRestart(s: AiSettings, p: Policy, cam: Camera)
    requires s.enabled && s.mode == "motion" && MotionAllowed(p)
    ensures SyncSelects(SyncMode(s, p), cam) <==> Armed(cam) && StartCamera(s, p, cam, false, false) == Starts
  {
  }

  // ---------------------------------------------------------------------------------------------
  // The watchdog's atomic steps
  // ---------------------------------------------------------------------------------------------

  const ABSENT_WAIT := 300000

  const COOLDOWN_DEFAULT := 600000

  const COOLDOWN_MIN := 120000

  /** `resolveDegradedRecoveryCooldownMs`; `None` when the setting is absent or not a number. */
  function RecoveryCooldown(setting: Option<int>): (ms: int)
    ensures ms >= 120000
    ensures setting.None? ==> ms == 600000
    ensures setting.Some? && setting.value >= 120000 ==> ms == setting.value
    ensures setting.Some? && setting.value < 120000 ==> ms == 120000
  {
    var value := if setting.Some? then setting.value else COOLDOWN_DEFAULT;
    if value < COOLDOWN_MIN then COOLDOWN_MIN else value
  }

  datatype State = State(
    degradedStrikes: map<CameraId, nat>, strayStrikes: map<CameraId, nat>, lastRecovery: map<CameraId, int>)

  datatype Step =
    | Purge(degraded: seq<CameraId>)
    | Absent(camera: CameraId, at: int)
    | Stray(camera: CameraId, legitimate: bool)
    | Degraded(camera: CameraId, at: int, cooldown: int)

  datatype Call = StopAnalysis(id: CameraId) | Restart(id: CameraId, allowCameraTrigger: bool)

  function GetOr<V>(m: map<CameraId, V>, key: CameraId, default: V): V { if key in m then m[key] else default }

  function Next(st: State, step: Step): (State, seq<Call>) {
    match step
    case Purge(degraded) =>
      (st.(degradedStrikes := map c | c in st.degradedStrikes && c in degraded :: st.degradedStrikes[c]), [])
    case Absent(c, at) =>
      if at - GetOr(st.lastRecovery, c, 0) < ABSENT_WAIT then (st, [])
      else (st.(lastRecovery := st.lastRecovery[c := at]), [Restart(c, false)])
    case Stray(c, legitimate) =>
      if legitimate then (st.(strayStrikes := st.strayStrikes - {c}), [])
      else
        var strikes := GetOr(st.strayStrikes, c, 0) + 1;
        if strikes < 2 then (st.(strayStrikes := st.strayStrikes[c := strikes]), [])
        else (st.(strayStrikes := st.strayStrikes - {c}), [StopAnalysis(c)])
    case Degraded(c, at, cooldown) =>
      var strikes := GetOr(st.degradedStrikes, c, 0) + 1;
      var noted := st.(degradedStrikes := st.degradedStrikes[c := strikes]);
      if strikes < 2 || at - GetOr(st.lastRecovery, c, 0) < cooldown then (noted, [])
      else
        (State(st.degradedStrikes - {c}, st.strayStrikes, st.lastRecovery[c := at]),
         [StopAnalysis(c), Restart(c, true)])
  }

  function After(st: State, steps: seq<Step>): State {
    if steps == [] then st else Next(After(st, steps[..|steps| - 1]), steps[|steps| - 1]).0
  }

  /** Everything the steps asked of the AI service, in order. */
  function Calls(st: State, steps: seq<Step>): seq<Call> {
    if steps == [] then []
    else
      var earlier := steps[..|steps| - 1];
      Calls(st, earlier) + Next(After(st, earlier), steps[|steps| - 1]).1
  }

  // ---------------------------------------------------------------------------------------------
  // One tick
  // ---------------------------------------------------------------------------------------------

  datatype Health = Health(status: string, degraded: seq<CameraId>, active: seq<CameraId>)

  /** What one tick is answered; `None` where the call fails. The cameras are read twice. */
  datatype Answers = Answers(
    health: Option<Health>, settings: Option<AiSettings>, armed: Option<seq<Camera>>, known: Option<seq<Camera>>)

  function AbsentSteps(cameras: seq<Camera>, active: seq<CameraId>, clock: nat -> int): seq<Step> {
    if cameras == [] then []
    else
      var n := |cameras| - 1;
      AbsentSteps(cameras[..n], active, clock)
        + if Armed(cameras[n]) && cameras[n].id !in active then [Absent(cameras[n].id, clock(n))] else []
  }

  function StraySteps(active: seq<CameraId>, legitimate: set<CameraId>): (steps: seq<Step>)
  {
    seq(|active|, i requires 0 <= i < |active| => Stray(active[i], active[i] in legitimate))
  }

  function DegradedSteps(degraded: seq<CameraId>, clock: nat -> int, cooldown: int): (steps: seq<Step>)
  {
    seq(|degraded|, i requires 0 <= i < |degraded| => Degraded(degraded[i], clock(i), cooldown))
  }

  predicate Up(h: Health) { h.status == "online" || h.status == "degraded" }

  /** The reconciling part of a tick, and whether the tick goes on after it. */
  function ReconcileSteps(a: Answers, clock: nat -> int): (seq<Step>, bool)
    requires a.health.Some?
  {
    var health := a.health.value;
    if !Up(health) then ([], true)
    else if a.settings.None? then ([], false)
    else if !a.settings.value.enabled || a.settings.value.mode != "motion" then ([], true)
    else if a.armed.None? then ([], false)
    else
      var absent := AbsentSteps(a.armed.value, health.active, clock);
      if a.known.None? then (absent, false)
      else (absent + StraySteps(health.active, LegitimateIds(a.known.value)), true)
  }

  /** The steps of one tick; `clock` gives the readings of the absent loop, `later` those of the degraded loop. */
  function TickSteps(a: Answers, clock: nat -> int, later: nat -> int, cooldown: int): seq<Step> {
    if a.health.None? then []
    else
      var (reconcile, goesOn) := ReconcileSteps(a, clock);
      [Purge(a.health.value.degraded)] + reconcile
        + if goesOn then DegradedSteps(a.health.value.degraded, later, cooldown) else []
  }

  lemma AbsentNext(cameras: seq<Camera>, cam: Camera, active: seq<CameraId>, clock: nat -> int)
    ensures var before, now := AbsentSteps(cameras, active, clock), AbsentSteps(cameras + [cam], active, clock);
            if Armed(cam) && cam.id !in active then now == before + [Absent(cam.id, clock(|cameras|))] else now == before
  {
    assert (cameras + [cam])[..|cameras|] == cameras;
  }

  lemma {:induction false} AfterJoined(st: State, a: seq<Step>, b: seq<Step>)
    ensures After(st, a + b) == After(After(st, a), b)
    ensures Calls(st, a + b) == Calls(st, a) + Calls(After(st, a), b)
  {
    hide Next;
    if b == [] {
      assert a + b == a;
    } else {
      var n := |b| - 1;
      assert a + b == (a + b[..n]) + [b[n]];
      AfterJoined(st, a, b[..n]);
      AfterNext(st, a + b[..n], b[n]);
    }
  }

  lemma AfterNext(st: State, steps: seq<Step>, step: Step)
    ensures After(st, steps + [step]) == Next(After(st, steps), step).0
    ensures Calls(st, steps + [step]) == Calls(st, steps) + Next(After(st, steps), step).1
  {
    assert (steps + [step])[..|steps|] == steps;
  }

  class Watchdog {
    var degradedStrikes: map<CameraId, nat>
    var strayStrikes: map<CameraId, nat>
    var lastRecovery: map<CameraId, int>

    function View(): State
      reads this
    {
      State(degradedStrikes, strayStrikes, lastRecovery)
    }

    constructor ()
      ensures View() == State(map[], map[], map[])
    {
      degradedStrikes, strayStrikes, lastRecovery := map[], map[], map[];
    }

    /** One undisturbed stretch of a loop body. */
    method Take(step: Step) returns (calls: seq<Call>)
      modifies this
      ensures (View(), calls) == Next(old(View()), step)
    {
      match step
      case Purge(degraded) =>
        var pending := degradedStrikes.Keys;
        ghost var was := degradedStrikes;
        while pending != {}
          invariant View() == old(View()).(degradedStrikes := degradedStrikes)
          invariant pending <= was.Keys && degradedStrikes.Keys <= was.Keys
          invariant forall c | c in was :: c in degradedStrikes <==> c in pending || c in degraded
          invariant forall c | c in degradedStrikes :: degradedStrikes[c] == was[c]
        {
          var c :| c in pending;
          if c !in degraded {
            degradedStrikes := degradedStrikes - {c};
          }
          pending := pending - {c};
        }
        assert degradedStrikes == map c | c in was && c in degraded :: was[c];
        return [];
      case Absent(c, at) =>
        if at - GetOr(lastRecovery, c, 0) < ABSENT_WAIT {
          return [];
        }
        lastRecovery := lastRecovery[c := at];
        return [Restart(c, false)];
      case Stray(c, legitimate) =>
        if legitimate {
          strayStrikes := strayStrikes - {c};
          return [];
        }
        var strikes := GetOr(strayStrikes, c, 0) + 1;
        strayStrikes := strayStrikes[c := strikes];
        if strikes < 2 {
          return [];
        }
        strayStrikes := strayStrikes - {c};
        assert strayStrikes == old(strayStrikes) - {c};
        return [StopAnalysis(c)];
      case Degraded(c, at, cooldown) =>
        var strikes := GetOr(degradedStrikes, c, 0) + 1;
        degradedStrikes := degradedStrikes[c := strikes];
        if strikes < 2 {
          return [];
        }
        if at - GetOr(lastRecovery, c, 0) < cooldown {
          return [];
        }
        lastRecovery := lastRecovery[c := at];
        degradedStrikes := degradedStrikes - {c};
        assert degradedStrikes == old(degradedStrikes) - {c};
        return [StopAnalysis(c), Restart(c, true)];
    }

    /** Restart the analysis of armed cameras that have no processor. */
    method RestartAbsent(cameras: seq<Camera>, active: seq<CameraId>, clock: nat -> int) returns (calls: seq<Call>)
      modifies this
      ensures View() == After(old(View()), AbsentSteps(cameras, active, clock))
      ensures calls == Calls(old(View()), AbsentSteps(cameras, active, clock))
    {
      hide Next;
      calls := [];
      for i := 0 to |cameras|
        invariant View() == After(old(View()), AbsentSteps(cameras[..i], active, clock))
        invariant calls == Calls(old(View()), AbsentSteps(cameras[..i], active, clock))
      {
        AbsentNext(cameras[..i], cameras[i], active, clock);
        assert cameras[..i + 1] == cameras[..i] + [cameras[i]];
        if Armed(cameras[i]) && cameras[i].id !in active {
          AfterNext(old(View()), AbsentSteps(cameras[..i], active, clock), Absent(cameras[i].id, clock(i)));
          var made := Take(Absent(cameras[i].id, clock(i)));
          calls := calls + made;
        }
      }
      assert cameras[..|cameras|] == cameras;
    }

    /** Stop processors that no start would have made, on their second strike. */
    method StopStray(active: seq<CameraId>, legitimate: set<CameraId>) returns (calls: seq<Call>)
      modifies this
      ensures View() == After(old(View()), StraySteps(active, legitimate))
      ensures calls == Calls(old(View()), StraySteps(active, legitimate))
    {
      hide Next;
      ghost var steps := StraySteps(active, legitimate);
      calls := [];
      for i := 0 to |active|
        invariant View() == After(old(View()), steps[..i]) && calls == Calls(old(View()), steps[..i])
      {
        assert steps[..i + 1] == steps[..i] + [Stray(active[i], active[i] in legitimate)];
        AfterNext(old(View()), steps[..i], steps[i]);
        var made := Take(Stray(active[i], active[i] in legitimate));
        calls := calls + made;
      }
      assert steps[..|active|] == steps;
    }

    /** Restart degraded processors, on their second strike and past the cooldown. */
    method RestartDegraded(degraded: seq<CameraId>, clock: nat -> int, cooldown: int) returns (calls: seq<Call>)
      modifies this
      ensures View() == After(old(View()), DegradedSteps(degraded, clock, cooldown))
      ensures calls == Calls(old(View()), DegradedSteps(degraded, clock, cooldown))
    {
      hide Next;
      ghost var steps := DegradedSteps(degraded, clock, cooldown);
      calls := [];
      for i := 0 to |degraded|
        invariant View() == After(old(View()), steps[..i]) && calls == Calls(old(View()), steps[..i])
      {
        assert steps[..i + 1] == steps[..i] + [Degraded(degraded[i], clock(i), cooldown)];
        AfterNext(old(View()), steps[..i], steps[i]);
        var made := Take(Degraded(degraded[i], clock(i), cooldown));
        calls := calls + made;
      }
      assert steps[..|degraded|] == steps;
    }

    /** `recoverDegradedProcessors`, undisturbed by another tick. */
    method RecoverDegradedProcessors(a: Answers, clock: nat -> int, later: nat -> int, setting: Option<int>)
      returns (calls: seq<Call>)
      modifies this
      ensures View() == After(old(View()), TickSteps(a, clock, later, RecoveryCooldown(setting)))
      ensures calls == Calls(old(View()), TickSteps(a, clock, later, RecoveryCooldown(setting)))
    {
      hide Next, AbsentSteps, StraySteps, DegradedSteps, After, Calls;
      if a.health.None? {
        Nothing(View());
        return [];
      }
      ghost var start := View();
      var health := a.health.value;
      calls := Take(Purge(health.degraded));
      Single(start, Purge(health.degraded));
      ghost var taken := [Purge(health.degraded)];
      if Up(health) {
        if a.settings.None? {
          assert TickSteps(a, clock, later, RecoveryCooldown(setting)) == taken;
          return;
        }
        if a.settings.value.enabled && a.settings.value.mode == "motion" {
          if a.armed.None? {
            assert TickSteps(a, clock, later, RecoveryCooldown(setting)) == taken;
            return;
          }
          var made := RestartAbsent(a.armed.value, health.active, clock);
          calls := calls + made;
          AfterJoined(start, taken, AbsentSteps(a.armed.value, health.active, clock));
          taken := taken + AbsentSteps(a.armed.value, health.active, clock);
          if a.known.None? {
            assert TickSteps(a, clock, later, RecoveryCooldown(setting)) == taken;
            return;
          }
          made := StopStray(health.active, LegitimateIds(a.known.value));
          calls := calls + made;
          AfterJoined(start, taken, StraySteps(health.active, LegitimateIds(a.known.value)));
          taken := taken + StraySteps(health.active, LegitimateIds(a.known.value));
        }
      }
      var made := RestartDegraded(health.degraded, later, RecoveryCooldown(setting));
      calls := calls + made;
      AfterJoined(start, taken, DegradedSteps(health.degraded, later, RecoveryCooldown(setting)));
      assert taken == [Purge(health.degraded)] + ReconcileSteps(a, clock).0;
    }
  }

  lemma Nothing(st: State)
    ensures After(st, []) == st && Calls(st, []) == []
  {
  }

  lemma Single(st: State, step: Step)
    ensures After(st, [step]) == Next(st, step).0 && Calls(st, [step]) == Next(st, step).1
  {
    AfterNext(st, [], step);
    assert [] + [step] == [step];
  }

  // ---------------------------------------------------------------------------------------------
  // Runs
  // ---------------------------------------------------------------------------------------------

  function Initial(): State { State(map[], map[], map[]) }

  /** The time of the reading a recovering step makes. */
  predicate Ordered(steps: seq<Step>) {
    forall i, j | 0 <= i < j < |steps| && Looks(steps[i]) && Looks(steps[j]) :: steps[i].at <= steps[j].at
  }

  predicate Looks(step: Step) { step.Absent? || step.Degraded? }

  predicate LooksAt(step: Step, c: CameraId) { Looks(step) && step.camera == c }

  /** Step `i` made a recovery: it restarted its camera. */
  predicate Recovers(steps: seq<Step>, i: nat)
    requires i < |steps|
  {
    Looks(steps[i]) && Next(After(Initial(), steps[..i]), steps[i]).1 != []
  }

  /** Step `i` restarted camera `c`. */
  predicate Restarts(steps: seq<Step>, i: nat, c: CameraId)
    requires i < |steps|
  {
    LooksAt(steps[i], c) && Recovers(steps, i)
  }

  function Wait(step: Step): int
    requires Looks(step)
  {
    if step.Absent? then ABSENT_WAIT else step.cooldown
  }

  /** No recovery of the camera in the last `wait` milliseconds, nor in the first `wait` of the epoch. */
  predicate Rested(steps: seq<Step>, c: CameraId, at: int, wait: int) {
    if exists i: nat :: i < |steps| && Restarts(steps, i, c)
    then forall i: nat | i < |steps| && Restarts(steps, i, c) :: at - steps[i].at >= wait
    else at >= wait
  }

  /** Step `i` saw the camera degraded and did not restart it. */
  predicate Sighting(steps: seq<Step>, i: nat, c: CameraId)
    requires i < |steps|
  {
    steps[i].Degraded? && steps[i].camera == c && !Recovers(steps, i)
  }

  /** Step `i` takes the strikes of the camera back: a tick in which it is not degraded, or its restart. */
  predicate TakesBack(steps: seq<Step>, i: nat, c: CameraId)
    requires i < |steps|
  {
    || (steps[i].Purge? && c !in steps[i].degraded)
    || (steps[i].Degraded? && steps[i].camera == c && Recovers(steps, i))
  }

  /** The camera was seen degraded, and no strike has been taken back since. */
  predicate Suspect(steps: seq<Step>, c: CameraId) {
    exists i: nat :: i < |steps| && Sighting(steps, i, c) && forall m: nat | i < m < |steps| :: !TakesBack(steps, m, c)
  }

  /** The prefix of a run tells the same about its steps. */
  lemma PrefixTells(steps: seq<Step>, n: nat, i: nat)
    requires i < n <= |steps|
    ensures steps[..n][i] == steps[i] && Recovers(steps[..n], i) == Recovers(steps, i)
  {
    assert steps[..n][..i] == steps[..i];
  }

  lemma {:induction false} StrikesMeanSuspect(steps: seq<Step>, c: CameraId)
    ensures GetOr(After(Initial(), steps).degradedStrikes, c, 0) >= 1 <==> Suspect(steps, c)
  {
    if steps != [] {
      var n := |steps| - 1;
      StrikesMeanSuspect(steps[..n], c);
      SuspectNext(steps, c);
      assert steps[..n + 1] == steps;
    }
  }

  lemma SuspectNext(steps: seq<Step>, c: CameraId)
    requires steps != []
    ensures var n := |steps| - 1;
            Suspect(steps, c) <==> Sighting(steps, n, c) || (Suspect(steps[..n], c) && !TakesBack(steps, n, c))
  {
    hide Next, After;
    var n := |steps| - 1;
    forall i: nat | i < n
      ensures Sighting(steps[..n], i, c) == Sighting(steps, i, c) && TakesBack(steps[..n], i, c) == TakesBack(steps, i, c)
    {
      PrefixTells(steps, n, i);
    }
    if Sighting(steps, n, c) {
      assert Suspect(steps, c);
    } else if Suspect(steps, c) {
      var i: nat :| i < |steps| && Sighting(steps, i, c) && forall m: nat | i < m < |steps| :: !TakesBack(steps, m, c);
      assert Sighting(steps[..n], i, c);
    }
  }

  /** The recorded time is that of the last recovery. */
  predicate LastRecovery(steps: seq<Step>, c: CameraId, last: Option<nat>) {
    var m := After(Initial(), steps).lastRecovery;
    match last
    case None => c !in m && forall i: nat | i < |steps| :: !Restarts(steps, i, c)
    case Some(k) =>
      && k < |steps| && Restarts(steps, k, c) && c in m && m[c] == steps[k].at
      && forall i: nat | k < i < |steps| :: !Restarts(steps, i, c)
  }

  lemma {:induction false} LastRecoveryFound(steps: seq<Step>, c: CameraId) returns (last: Option<nat>)
    ensures LastRecovery(steps, c, last)
  {
    last := None;
    if steps != [] {
      var n := |steps| - 1;
      var before := LastRecoveryFound(steps[..n], c);
      last := if Restarts(steps, n, c) then Some(n) else before;
      LastRecoveryNext(steps, c, before);
    }
  }

  lemma LastRecoveryNext(steps: seq<Step>, c: CameraId, before: Option<nat>)
    requires steps != [] && LastRecovery(steps[..|steps| - 1], c, before)
    ensures var n := |steps| - 1;
            LastRecovery(steps, c, if Restarts(steps, n, c) then Some(n) else before)
  {
    var n := |steps| - 1;
    RecoveryNoted(steps, c);
    forall i: nat | i < n
      ensures steps[..n][i] == steps[i] && Restarts(steps[..n], i, c) == Restarts(steps, i, c)
    {
      PrefixTells(steps, n, i);
    }
    assert Restarts(steps, n, c) ==> LooksAt(steps[n], c);
    hide Restarts, Recovers, LooksAt, Looks, Next, After;
  }

  lemma NextNotes(st: State, step: Step, c: CameraId)
    ensures var (next, calls) := Next(st, step);
            if LooksAt(step, c) && calls != [] then c in next.lastRecovery && next.lastRecovery[c] == step.at
            else (c in next.lastRecovery <==> c in st.lastRecovery)
                 && (c in st.lastRecovery ==> next.lastRecovery[c] == st.lastRecovery[c])
  {
  }

  lemma RecoveryNoted(steps: seq<Step>, c: CameraId)
    requires steps != []
    ensures var n := |steps| - 1;
            var was, now := After(Initial(), steps[..n]).lastRecovery, After(Initial(), steps).lastRecovery;
            if Restarts(steps, n, c) then c in now && now[c] == steps[n].at
            else (c in now <==> c in was) && (c in now ==> now[c] == was[c])
  {
    var n := |steps| - 1;
    NextNotes(After(Initial(), steps[..n]), steps[n], c);
    hide Next;
  }

  /** The check the program makes is the check on the whole run. */
  lemma RestedExactly(steps: seq<Step>, c: CameraId, at: int, wait: int)
    requires Ordered(steps)
    ensures at - GetOr(After(Initial(), steps).lastRecovery, c, 0) >= wait <==> Rested(steps, c, at, wait)
  {
    hide Next, After, Recovers;
    var last := LastRecoveryFound(steps, c);
    if last.Some? {
      var k := last.value;
      forall i: nat | i < |steps| && Restarts(steps, i, c)
        ensures steps[i].at <= steps[k].at
      {
        assert i <= k;
        assert i < k ==> steps[i].at <= steps[k].at;
      }
    }
  }

  /**
    When the watchdog restarts a camera. An absent one: exactly when none of its recoveries fell in the last
    five minutes. A degraded one: exactly when a sighting came before, no strike has been taken back since,
    and none of its recoveries fell within the cooldown.
   */
  lemma RecoversExactly(steps: seq<Step>, j: nat)
    requires Ordered(steps) && j < |steps| && Looks(steps[j])
    ensures var c := steps[j].camera;
            Recovers(steps, j) <==>
            && (steps[j].Degraded? ==> Suspect(steps[..j], c))
            && Rested(steps[..j], c, steps[j].at, if steps[j].Absent? then 300000 else steps[j].cooldown)
  {
    hide After, Suspect, Rested;
    RestedExactly(steps[..j], steps[j].camera, steps[j].at, Wait(steps[j]));
    StrikesMeanSuspect(steps[..j], steps[j].camera);
  }

  /** Two recoveries of one camera are at least min(5 min, cooldown) apart: never under two minutes. */
  lemma RecoveriesAreSpaced(steps: seq<Step>, i: nat, j: nat)
    requires Ordered(steps) && i < j < |steps| && Recovers(steps, i) && Recovers(steps, j)
    requires steps[i].camera == steps[j].camera
    ensures steps[j].at - steps[i].at >= if steps[j].Absent? then 300000 else steps[j].cooldown
    ensures steps[j].Absent? || steps[j].cooldown >= 120000 ==> steps[j].at - steps[i].at >= 120000
  {
    hide After, Next;
    RecoversExactly(steps, j);
    PrefixTells(steps, j, i);
    assert Restarts(steps[..j], i, steps[j].camera);
  }

  // ---------------------------------------------------------------------------------------------
  // Stray processors
  // ---------------------------------------------------------------------------------------------

  predicate SeesStray(step: Step, c: CameraId) { step.Stray? && step.camera == c }

  /** Step `i` stopped a stray processor. */
  predicate Stops(steps: seq<Step>, i: nat)
    requires i < |steps|
  {
    steps[i].Stray? && Next(After(Initial(), steps[..i]), steps[i]).1 != []
  }

  /** The last time the stray pass looked at the camera it was stray, and was let go. */
  predicate Warned(steps: seq<Step>, c: CameraId) {
    exists i: nat :: i < |steps| && SeesStray(steps[i], c) && !steps[i].legitimate && !Stops(steps, i)
      && forall m: nat | i < m < |steps| :: !SeesStray(steps[m], c)
  }

  lemma {:induction false} StrayStrikesMeanWarned(steps: seq<Step>, c: CameraId)
    ensures GetOr(After(Initial(), steps).strayStrikes, c, 0) >= 1 <==> Warned(steps, c)
  {
    if steps != [] {
      var n := |steps| - 1;
      StrayStrikesMeanWarned(steps[..n], c);
      WarnedNext(steps, c);
    }
  }

  lemma WarnedNext(steps: seq<Step>, c: CameraId)
    requires steps != []
    ensures var n := |steps| - 1;
            Warned(steps, c) <==>
            if SeesStray(steps[n], c) then !steps[n].legitimate && !Stops(steps, n) else Warned(steps[..n], c)
  {
    hide Next, After;
    var n := |steps| - 1;
    forall i: nat | i < n
      ensures steps[..n][i] == steps[i] && Stops(steps[..n], i) == Stops(steps, i)
    {
      assert steps[..n][..i] == steps[..i];
    }
    if SeesStray(steps[n], c) {
      assert !steps[n].legitimate && !Stops(steps, n) ==> Warned(steps, c);
    } else if Warned(steps[..n], c) {
      var i: nat :| i < n && SeesStray(steps[..n][i], c) && !steps[..n][i].legitimate && !Stops(steps[..n], i)
        && forall m: nat | i < m < n :: !SeesStray(steps[..n][m], c);
      assert SeesStray(steps[i], c) && !steps[i].legitimate && !Stops(steps, i);
    }
  }

  /**
    A processor is stopped exactly when its camera is not legitimate now, and was not the last time the stray
    pass looked at it, however long ago: nothing takes the strike back while the camera has no processor.
   */
  lemma StopsExactly(steps: seq<Step>, j: nat)
    requires j < |steps| && steps[j].Stray?
    ensures Stops(steps, j) <==> !steps[j].legitimate && Warned(steps[..j], steps[j].camera)
  {
    hide After, Warned;
    StrayStrikesMeanWarned(steps[..j], steps[j].camera);
  }

  /**
    The strike does not fade: between a warning and the next look at the same stray camera any number of ticks
    may pass in which it had no processor, and the processor found then is stopped at first sight.
   */
  lemma StrikeNeverFades(steps: seq<Step>, i: nat, j: nat)
    requires i < j < |steps| && steps[i].Stray? && !steps[i].legitimate && !Stops(steps, i)
    requires SeesStray(steps[j], steps[i].camera) && !steps[j].legitimate
    requires forall m | i < m < j :: !SeesStray(steps[m], steps[i].camera)
    ensures Stops(steps, j)
  {
    hide Stops;
    StopsExactly(steps, j);
    assert SeesStray(steps[..j][i], steps[i].camera) && !Stops(steps[..j], i) by {
      SamePrefixStops(steps, i, j);
    }
  }

  lemma SamePrefixStops(steps: seq<Step>, i: nat, j: nat)
    requires i < j <= |steps|
    ensures Stops(steps[..j], i) == Stops(steps, i)
  {
    assert steps[..j][..i] == steps[..i];
  }

  /** What each step asks of the AI service: a recovery restarts its camera, a degraded one after a stop; a stray one is stopped. */
  lemma CallsExactly(steps: seq<Step>, j: nat)
    requires j < |steps|
    ensures var step, calls := steps[j], Next(After(Initial(), steps[..j]), steps[j]).1;
            calls == if step.Absent? && Recovers(steps, j) then [Restart(step.camera, false)]
                     else if step.Degraded? && Recovers(steps, j) then [StopAnalysis(step.camera), Restart(step.camera, true)]
                     else if step.Stray? && Stops(steps, j) then [StopAnalysis(step.camera)]
                     else []
  {
    hide After;
  }

  // ---------------------------------------------------------------------------------------------
  // The steps of a tick
  // ---------------------------------------------------------------------------------------------

  /** The absent pass looks, in list order, at each camera armed for recording on motion that has no processor. */
  lemma {:induction false} AbsentExactly(cameras: seq<Camera>, active: seq<CameraId>, clock: nat -> int) returns (at: seq<nat>)
    ensures |at| == |AbsentSteps(cameras, active, clock)| && forall p, q | 0 <= p < q < |at| :: at[p] < at[q]
    ensures forall p | 0 <= p < |at| ::
              at[p] < |cameras| && AbsentSteps(cameras, active, clock)[p] == Absent(cameras[at[p]].id, clock(at[p]))
    ensures forall i: nat | i < |cameras| ::
              i in at <==> && cameras[i].recordingMode == "motion" && cameras[i].motionTrigger == "SYSTEM" && cameras[i].enabled
                           && cameras[i].id !in active
  {
    at := [];
    if |cameras| > 0 {
      var n := |cameras| - 1;
      at := AbsentExactly(cameras[..n], active, clock);
      assert forall i: nat | i < n :: cameras[..n][i] == cameras[i];
      if Armed(cameras[n]) && cameras[n].id !in active {
        at := at + [n];
      }
    }
  }

  /** The stray pass looks at every active processor and spares those of enabled cameras with detection on. */
  lemma StrayExactly(active: seq<CameraId>, cameras: seq<Camera>, i: nat)
    requires i < |active|
    ensures |StraySteps(active, LegitimateIds(cameras))| == |active|
    ensures var step := StraySteps(active, LegitimateIds(cameras))[i];
            && step.Stray? && step.camera == active[i]
            && (step.legitimate <==> exists cam :: cam in cameras && cam.id == active[i] && cam.enabled && cam.aiEnabled)
  {
  }

  /** The reconciling passes run in an answered tick of a live service with motion analysis on. */
  predicate Reconciles(a: Answers) {
    && a.health.Some? && (a.health.value.status == "online" || a.health.value.status == "degraded")
    && a.settings.Some? && a.settings.value.enabled && a.settings.value.mode == "motion"
  }

  /**
    What a tick consists of. Nothing without an answer about health. Otherwise the purge; the absent pass, and after it
    the stray one, where the service reconciles and their cameras could be read; and the degraded pass, unless a
    reading before it failed.
   */
  lemma TickExactly(a: Answers, clock: nat -> int, later: nat -> int, cooldown: int)
    ensures a.health == None ==> TickSteps(a, clock, later, cooldown) == []
    ensures a.health.Some? ==>
              var health := a.health.value;
              var absent := if Reconciles(a) && a.armed.Some? then AbsentSteps(a.armed.value, health.active, clock) else [];
              var stray := if Reconciles(a) && a.armed.Some? && a.known.Some?
                           then StraySteps(health.active, LegitimateIds(a.known.value)) else [];
              var failed := (health.status == "online" || health.status == "degraded")
                            && (a.settings.None? || (Reconciles(a) && (a.armed.None? || a.known.None?)));
              && |DegradedSteps(health.degraded, later, cooldown)| == |health.degraded|
              && (forall i | 0 <= i < |health.degraded| ::
                    DegradedSteps(health.degraded, later, cooldown)[i] == Degraded(health.degraded[i], later(i), cooldown))
              && TickSteps(a, clock, later, cooldown)
                 == [Purge(health.degraded)] + absent + stray + (if failed then [] else DegradedSteps(health.degraded, later, cooldown))
  {
    hide AbsentSteps, StraySteps, LegitimateIds;
    if a.health.Some? {
      var health := a.health.value;
      var absent := if Reconciles(a) && a.armed.Some? then AbsentSteps(a.armed.value, health.active, clock) else [];
      var stray := if Reconciles(a) && a.armed.Some? && a.known.Some?
                   then StraySteps(health.active, LegitimateIds(a.known.value)) else [];
      assert ReconcileSteps(a, clock).0 == absent + stray;
      assert [Purge(health.degraded)] + (absent + stray) == [Purge(health.degraded)] + absent + stray;
    }
  }

  // ---------------------------------------------------------------------------------------------
  // Runs of ticks
  // ---------------------------------------------------------------------------------------------

  /** What one tick is answered, and the readings of its clock. */
  datatype Tick = Tick(answers: Answers, clock: nat -> int, later: nat -> int, cooldown: int)

  function StepsOf(tick: Tick): seq<Step> { TickSteps(tick.answers, tick.clock, tick.later, tick.cooldown) }

  /** The ticks one after the other. */
  function Flat(ticks: seq<Tick>): seq<Step> {
    if |ticks| == 0 then [] else Flat(ticks[..|ticks| - 1]) + StepsOf(ticks[|ticks| - 1])
  }

  /** Where tick `k` begins. */
  function Offset(ticks: seq<Tick>, k: nat): nat
    requires k <= |ticks|
  {
    |Flat(ticks[..k])|
  }

  lemma {:induction false} FlatAt(ticks: seq<Tick>, k: nat)
    requires k < |ticks|
    ensures Offset(ticks, k) + |StepsOf(ticks[k])| == Offset(ticks, k + 1) <= |Flat(ticks)|
    ensures forall p | 0 <= p < |StepsOf(ticks[k])| :: Flat(ticks)[Offset(ticks, k) + p] == StepsOf(ticks[k])[p]
  {
    hide StepsOf;
    var n := |ticks| - 1;
    assert ticks[..k + 1][..k] == ticks[..k];
    if k < n {
      FlatAt(ticks[..n], k);
      assert ticks[..n][..k] == ticks[..k] && ticks[..n][..k + 1] == ticks[..k + 1];
    } else {
      assert ticks[..k + 1] == ticks;
    }
  }

  lemma {:induction false} Located(ticks: seq<Tick>, i: nat) returns (k: nat, p: nat)
    requires i < |Flat(ticks)|
    ensures k < |ticks| && p < |StepsOf(ticks[k])| && i == Offset(ticks, k) + p && Flat(ticks)[i] == StepsOf(ticks[k])[p]
  {
    hide StepsOf;
    var n := |ticks| - 1;
    var before := |Flat(ticks[..n])|;
    if i < before {
      k, p := Located(ticks[..n], i);
      assert ticks[..n][..k] == ticks[..k];
    } else {
      k, p := n, i - before;
    }
  }

  lemma {:induction false} OffsetsGrow(ticks: seq<Tick>, k: nat, m: nat)
    requires k <= m <= |ticks|
    ensures Offset(ticks, k) <= Offset(ticks, m)
    decreases m - k
  {
    hide StepsOf;
    if k < m {
      FlatAt(ticks, k);
      OffsetsGrow(ticks, k + 1, m);
    }
  }

  predicate NoRepeats(ids: seq<CameraId>) { forall i, j | 0 <= i < j < |ids| :: ids[i] != ids[j] }

  /** Each camera is listed at most once among the degraded ones, as the keys of a dictionary are. */
  predicate Listed(tick: Tick) { tick.answers.health.Some? ==> NoRepeats(tick.answers.health.value.degraded) }

  lemma {:induction false} AbsentStepsAreAbsent(cameras: seq<Camera>, active: seq<CameraId>, clock: nat -> int)
    ensures forall s | s in AbsentSteps(cameras, active, clock) :: s.Absent?
  {
    if cameras != [] {
      AbsentStepsAreAbsent(cameras[..|cameras| - 1], active, clock);
    }
  }

  /** What the steps of one tick are: a purge by its list, then no degraded camera twice, strays by its known cameras. */
  lemma TickShape(tick: Tick, p: nat, q: nat)
    requires Listed(tick) && q < |StepsOf(tick)|
    ensures var steps := StepsOf(tick);
            && tick.answers.health.Some? && steps[0] == Purge(tick.answers.health.value.degraded)
            && (p < q && steps[p].Degraded? && steps[q].Degraded? ==> steps[p].camera != steps[q].camera)
            && (steps[q].Purge? ==> q == 0)
            && (steps[q].Degraded? ==> steps[q].camera in tick.answers.health.value.degraded)
            && (steps[q].Stray? ==>
                  && tick.answers.known.Some?
                  && (steps[q].legitimate <==> steps[q].camera in LegitimateIds(tick.answers.known.value)))
  {
    hide LegitimateIds, AbsentSteps;
    var a := tick.answers;
    var (reconcile, goesOn) := ReconcileSteps(a, tick.clock);
    ReconcileShape(a, tick.clock);
    hide ReconcileSteps;
    var n := 1 + |reconcile|;
    if q >= n {
      assert StepsOf(tick)[q] == DegradedSteps(a.health.value.degraded, tick.later, tick.cooldown)[q - n];
    } else if q > 0 {
      assert StepsOf(tick)[q] == reconcile[q - 1];
    }
    if p < q && p >= n {
      assert StepsOf(tick)[p] == DegradedSteps(a.health.value.degraded, tick.later, tick.cooldown)[p - n];
    } else if p < q && p > 0 {
      assert StepsOf(tick)[p] == reconcile[p - 1];
    }
  }

  lemma ReconcileShape(a: Answers, clock: nat -> int)
    requires a.health.Some?
    ensures var (reconcile, _) := ReconcileSteps(a, clock);
            forall i | 0 <= i < |reconcile| ::
              && !reconcile[i].Purge? && !reconcile[i].Degraded?
              && (reconcile[i].Stray? ==>
                    && a.known.Some?
                    && (reconcile[i].legitimate <==> reconcile[i].camera in LegitimateIds(a.known.value)))
  {
    hide LegitimateIds, AbsentSteps;
    if a.armed.Some? {
      var absent := AbsentSteps(a.armed.value, a.health.value.active, clock);
      AbsentStepsAreAbsent(a.armed.value, a.health.value.active, clock);
      assert forall i | 0 <= i < |absent| :: absent[i] in absent;
    }
  }

  /** A degraded restart was preceded by a sighting, and no strike was taken back in between. */
  lemma RestartIsSuspected(steps: seq<Step>, j: nat)
    requires j < |steps| && steps[j].Degraded? && Recovers(steps, j)
    ensures Suspect(steps[..j], steps[j].camera)
  {
    hide After, Suspect;
    StrikesMeanSuspect(steps[..j], steps[j].camera);
  }

  /**
    A degraded camera is restarted only after an earlier tick saw it degraded too, and every tick from then
    on whose health call was answered listed it as degraded.
   */
  lemma RestartNeedsTwoTicks(ticks: seq<Tick>, k: nat, p: nat) returns (m: nat, q: nat)
    requires forall n | 0 <= n < |ticks| :: Listed(ticks[n])
    requires k < |ticks| && p < |StepsOf(ticks[k])| && StepsOf(ticks[k])[p].Degraded?
    requires Offset(ticks, k) + p < |Flat(ticks)| && Recovers(Flat(ticks), Offset(ticks, k) + p)
    ensures m < k && q < |StepsOf(ticks[m])| && StepsOf(ticks[m])[q].Degraded?
    ensures StepsOf(ticks[m])[q].camera == StepsOf(ticks[k])[p].camera
    ensures forall n | m <= n <= k && ticks[n].answers.health.Some? ::
              StepsOf(ticks[k])[p].camera in ticks[n].answers.health.value.degraded
  {
    hide StepsOf, Recovers, After, Next, Listed;
    var steps, j, c := Flat(ticks), Offset(ticks, k) + p, StepsOf(ticks[k])[p].camera;
    FlatAt(ticks, k);
    RestartIsSuspected(steps, j);
    var i: nat :| i < j && Sighting(steps[..j], i, c) && forall x: nat | i < x < j :: !TakesBack(steps[..j], x, c);
    m, q := Located(ticks, i);
    if m > k {
      OffsetsGrow(ticks, k + 1, m);
    } else if m == k {
      TickShape(ticks[k], q, p);
    }
    TickShape(ticks[m], 0, q);
    forall n | m < n <= k && ticks[n].answers.health.Some?
      ensures c in ticks[n].answers.health.value.degraded
    {
      FlatAt(ticks, n);
      FlatAt(ticks, m);
      OffsetsGrow(ticks, m + 1, n);
      OffsetsGrow(ticks, n, k);
      PurgeFirst(ticks[n]);
      TickShape(ticks[k], 0, p);
      var x := Offset(ticks, n);
      if n < k {
        OffsetsGrow(ticks, n + 1, k);
      }
      assert steps[x] == Purge(ticks[n].answers.health.value.degraded);
      assert i < x && x < j ==> steps[..j][x] == steps[x] && !TakesBack(steps[..j], x, c);
    }
  }

  lemma PurgeFirst(tick: Tick)
    requires tick.answers.health.Some?
    ensures |StepsOf(tick)| > 0 && StepsOf(tick)[0] == Purge(tick.answers.health.value.degraded)
  {
  }

  function QuietTick(active: seq<CameraId>): Tick {
    Tick(Answers(Some(Health("online", [], active)), Some(AiSettings(true, "motion")), Some([]), Some([])), n => 0, n => 0, COOLDOWN_MIN)
  }

  lemma QuietSteps(active: seq<CameraId>)
    ensures StepsOf(QuietTick(active)) == [Purge([])] + StraySteps(active, {})
  {
    assert LegitimateIds([]) == {};
    assert AbsentSteps([], active, n => 0) == [];
    assert DegradedSteps([], n => 0, COOLDOWN_MIN) == [];
    assert [] + StraySteps(active, {}) == StraySteps(active, {});
  }

  lemma FlatThree(a: Tick, b: Tick, c: Tick)
    ensures Flat([a, b, c]) == StepsOf(a) + StepsOf(b) + StepsOf(c)
  {
    FlatLast([], a);
    FlatLast([a], b);
    FlatLast([a, b], c);
    hide StepsOf, Flat;
    assert [] + [a] == [a] && [a] + [b] == [a, b] && [a, b] + [c] == [a, b, c];
    assert [] + StepsOf(a) == StepsOf(a);
  }

  lemma FlatLast(ticks: seq<Tick>, last: Tick)
    ensures Flat(ticks + [last]) == Flat(ticks) + StepsOf(last)
    ensures Flat([]) == []
  {
    hide StepsOf;
    assert (ticks + [last])[..|ticks|] == ticks;
  }

  /**
    Three ticks show it: the camera has a stray processor in the first and the third, and none in the second,
    whose health call is answered. The third tick stops it at first sight.
   */
  lemma StopsAcrossQuietTick(c: CameraId) returns (ticks: seq<Tick>)
    ensures |ticks| == 3 && ticks[1].answers.health == Some(Health("online", [], []))
    ensures StepsOf(ticks[1]) == [Purge([])]
    ensures Flat(ticks) == [Purge([]), Stray(c, false), Purge([]), Purge([]), Stray(c, false)]
    ensures Stops(Flat(ticks), 4) && !Stops(Flat(ticks), 1)
  {
    ticks := [QuietTick([c]), QuietTick([]), QuietTick([c])];
    QuietSteps([c]);
    QuietSteps([]);
    assert StraySteps([], {}) == [] && StraySteps([c], {}) == [Stray(c, false)];
    hide StepsOf, Stops, Flat;
    FlatThree(ticks[0], ticks[1], ticks[2]);
    var steps := Flat(ticks);
    assert steps == [Purge([]), Stray(c, false), Purge([]), Purge([]), Stray(c, false)];
    StopsExactly(steps, 1);
    StrikeNeverFades(steps, 1, 4);
  }

  /**
    While the cameras stay the same, the stray pass of no tick ever stops a camera that a sync or an
    absent-processor restart starts, whatever the ticks before it saw.
   */
  lemma StartedIsNeverStray(s: AiSettings, p: Policy, cameras: seq<Camera>, cam: Camera, ticks: seq<Tick>, j: nat)
    requires cam in cameras && UniqueIds(cameras)
    requires SyncSelects(SyncMode(s, p), cam) || (Armed(cam) && StartCamera(s, p, cam, false, false) == Starts)
    requires forall n | 0 <= n < |ticks| :: Listed(ticks[n])
    requires forall n | 0 <= n < |ticks| && ticks[n].answers.known.Some? :: ticks[n].answers.known.value == cameras
    requires j < |Flat(ticks)| && SeesStray(Flat(ticks)[j], cam.id)
    ensures !Stops(Flat(ticks), j)
  {
    hide StepsOf, Stops, Listed;
    var k, q := Located(ticks, j);
    TickShape(ticks[k], 0, q);
    StartsAreLegitimate(s, p, cameras, cam);
    StopsExactly(Flat(ticks), j);
  }
}
