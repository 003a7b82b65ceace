/**
  The recording worker: reconcile loop, commands and recorders share three maps under one mutex. Each locked
  section is one event; a context is identified with the recorder started with it, by position.
 */
module RecordingWorker {
  import opened Wrappers

  datatype Camera = Camera(id: string, enabled: Option<bool>, recordingEnabled: bool)

  /** An absent flag counts as enabled; only an explicit `false` disables. */
  predicate IsEnabled(cam: Camera) { cam.enabled == None || cam.enabled.value }

  predicate IsRecordable(cam: Camera) { IsEnabled(cam) && cam.recordingEnabled }

  type Token = nat

  /** Where a recorder goroutine is in its loop; `current` is the camera as last fetched. */
  datatype Phase =
    | Top
    | Fetched(current: Camera)
    | Allowed(current: Camera)
    | Recording(current: Camera)
    | Panicking
    | Done

  datatype Recorder = Recorder(camera: Camera, phase: Phase)

  /** The shared maps, the cancelled contexts and the recorders started so far. */
  datatype World = World(
    active: map<string, bool>,
    cancels: map<string, Token>,
    segments: map<string, int>,
    cancelled: set<Token>,
    recorders: seq<Recorder>)

  const Boot := World(map[], map[], map[], {}, [])

  predicate IsActive(w: World, id: string) { id in w.active && w.active[id] }

  // ---------------------------------------------------------------------------------------------
  // The locked sections
  // ---------------------------------------------------------------------------------------------

  function StartLocked(w: World, cam: Camera): World {
    w.(active := w.active[cam.id := true],
       cancels := w.cancels[cam.id := |w.recorders|],
       recorders := w.recorders + [Recorder(cam, Top)])
  }

  /** Stopping a set of cameras: cancel what is stored for them, forget them. */
  function StopAll(w: World, ids: set<string>): World {
    w.(active := w.active - ids,
       cancels := w.cancels - ids,
       segments := w.segments - ids,
       cancelled := w.cancelled + set id | id in ids && id in w.cancels :: w.cancels[id])
  }

  function StopLocked(w: World, id: string): World { StopAll(w, {id}) }

  function IdsOf(cameras: seq<Camera>): set<string> { set k | 0 <= k < |cameras| :: cameras[k].id }

  /** Stop every active camera that is not in the fetched list. */
  function Cleaned(w: World, cameras: seq<Camera>): World { StopAll(w, w.active.Keys - IdsOf(cameras)) }

  function Reconciled(w: World, cam: Camera): World {
    if IsRecordable(cam) then
      if IsActive(w, cam.id) then w else StartLocked(w, cam)
    else
      if IsActive(w, cam.id) then StopLocked(w, cam.id) else w
  }

  function StartCommanded(w: World, cam: Camera, seconds: int): World {
    if !IsEnabled(cam) then w
    else
      var noted := if seconds > 0 then w.(segments := w.segments[cam.id := seconds]) else w;
      if IsActive(noted, cam.id) then noted else StartLocked(noted, cam)
  }

  function StopCommanded(w: World, id: string): World {
    if id == "" || !IsActive(w, id) then w else StopLocked(w, id)
  }

  function Moved(w: World, t: Token, phase: Phase): World
    requires t < |w.recorders|
  {
    w.(recorders := w.recorders[t := w.recorders[t].(phase := phase)])
  }

  // ---------------------------------------------------------------------------------------------
  // Events
  // ---------------------------------------------------------------------------------------------

  datatype Event =
    | Clean(cameras: seq<Camera>)
    | Reconcile(camera: Camera)
    | StartCommand(camera: Camera, seconds: int)
    | StopCommand(id: string)
    | Refresh(t: Token, fetched: Option<Camera>)
    | CheckActive(t: Token)
    | CheckEnabled(t: Token)
    | NextSegment(t: Token)
    | ExitCancelled(t: Token)
    | Panic(t: Token)
    | Recover(t: Token)

  predicate At(w: World, t: Token) { t < |w.recorders| }

  /** When an event can happen: a recorder's own step at its own phase; the other events at any time. */
  predicate Possible(w: World, e: Event) {
    match e
    case Clean(_) | Reconcile(_) | StartCommand(_, _) | StopCommand(_) => true
    case Refresh(t, _) => At(w, t) && w.recorders[t].phase == Top
    case CheckActive(t) => At(w, t) && w.recorders[t].phase.Fetched?
    case CheckEnabled(t) => At(w, t) && w.recorders[t].phase.Allowed?
    case NextSegment(t) => At(w, t) && w.recorders[t].phase.Recording?
    case ExitCancelled(t) => At(w, t) && w.recorders[t].phase.Recording? && t in w.cancelled
    case Panic(t) => At(w, t) && !w.recorders[t].phase.Done? && !w.recorders[t].phase.Panicking?
    case Recover(t) => At(w, t) && w.recorders[t].phase.Panicking?
  }

  function Next(w: World, e: Event): World
    requires Possible(w, e)
  {
    match e
    case Clean(cameras) => Cleaned(w, cameras)
    case Reconcile(cam) => Reconciled(w, cam)
    case StartCommand(cam, seconds) => StartCommanded(w, cam, seconds)
    case StopCommand(id) => StopCommanded(w, id)
    case Refresh(t, fetched) => Moved(w, t, Fetched(if fetched.Some? then fetched.value else w.recorders[t].camera))
    case CheckActive(t) =>
      var cam := w.recorders[t].phase.current;
      Moved(w, t, if IsActive(w, cam.id) then Allowed(cam) else Done)
    case CheckEnabled(t) =>
      var cam := w.recorders[t].phase.current;
      if IsEnabled(cam) then Moved(w, t, Recording(cam)) else StopLocked(Moved(w, t, Done), cam.id)
    case NextSegment(t) => Moved(w, t, Top)
    case ExitCancelled(t) => Moved(w, t, Done)
    case Panic(t) => Moved(w, t, Panicking)
    case Recover(t) => StopLocked(Moved(w, t, Done), w.recorders[t].camera.id)
  }

  // ---------------------------------------------------------------------------------------------
  // The worker's own form: three maps and the methods that change them
  // ---------------------------------------------------------------------------------------------

  class Worker {
    var activeRecordings: map<string, bool>
    var recordingCancels: map<string, Token>
    var recordingSegments: map<string, int>
    var cancelled: set<Token>
    var recorders: seq<Recorder>

    function View(): World
      reads this
    {
      World(activeRecordings, recordingCancels, recordingSegments, cancelled, recorders)
    }

    constructor ()
      ensures View() == Boot
    {
      activeRecordings, recordingCancels, recordingSegments := map[], map[], map[];
      cancelled, recorders := {}, [];
    }

    method StartRecordingLocked(cam: Camera)
      modifies this
      ensures View() == StartLocked(old(View()), cam)
    {
      activeRecordings := activeRecordings[cam.id := true];
      recordingCancels := recordingCancels[cam.id := |recorders|];
      recorders := recorders + [Recorder(cam, Top)];
    }

    method StopRecordingLocked(id: string)
      modifies this
      ensures View() == StopLocked(old(View()), id)
    {
      if id in recordingCancels {
        cancelled := cancelled + {recordingCancels[id]};
      }
      recordingCancels := recordingCancels - {id};
      activeRecordings := activeRecordings - {id};
      recordingSegments := recordingSegments - {id};
    }

    method CollectIds(cameras: seq<Camera>) returns (ids: set<string>)
      ensures ids == IdsOf(cameras)
    {
      ids := {};
      for k := 0 to |cameras|
        invariant ids == IdsOf(cameras[..k])
      {
        assert IdsOf(cameras[..k + 1]) == IdsOf(cameras[..k]) + {cameras[k].id};
        ids := ids + {cameras[k].id};
      }
      assert cameras[..|cameras|] == cameras;
    }

    /** The first locked section of a reconcile pass; the order of the map's keys does not matter. */
    method CleanRemoved(cameras: seq<Camera>)
      modifies this
      ensures View() == Cleaned(old(View()), cameras)
    {
      hide StopAll, IdsOf;
      var current := CollectIds(cameras);
      var pending := activeRecordings.Keys;
      ghost var w := View();
      ghost var stopped: set<string> := {};
      StopNothing(w);
      while pending != {}
        invariant pending <= w.active.Keys
        invariant stopped == (w.active.Keys - pending) - current
        invariant View() == StopAll(w, stopped)
        decreases |pending|
      {
        var id :| id in pending;
        pending := pending - {id};
        if id !in current {
          StopTwice(w, stopped, {id});
          StopRecordingLocked(id);
          stopped := stopped + {id};
        }
      }
      assert stopped == w.active.Keys - current;
    }

    method ReconcileCamera(cam: Camera)
      modifies this
      ensures View() == Reconciled(old(View()), cam)
    {
      var isActive := cam.id in activeRecordings && activeRecordings[cam.id];
      if IsRecordable(cam) {
        if !isActive {
          StartRecordingLocked(cam);
        }
      } else {
        if isActive {
          StopRecordingLocked(cam.id);
        }
      }
    }

    /** A pass of the main loop over a fetched list, when nothing else runs in between. */
    method ReconcilePass(cameras: seq<Camera>)
      modifies this
      ensures View() == PassFrom(Cleaned(old(View()), cameras), cameras, 0)
    {
      CleanRemoved(cameras);
      for k := 0 to |cameras|
        invariant PassFrom(View(), cameras, k) == PassFrom(Cleaned(old(View()), cameras), cameras, 0)
      {
        ReconcileCamera(cameras[k]);
      }
    }

    /** `fetched` is what the API answers for the camera named in the command, whichever camera that is. */
    method HandleRecordingCommand(action: string, cameraId: string, seconds: int, fetched: Option<Camera>)
      modifies this
      ensures cameraId == "" ==> View() == old(View())
      ensures cameraId != "" && action == "start" && fetched.Some? ==>
                View() == StartCommanded(old(View()), fetched.value, seconds)
      ensures action == "start" && fetched.None? ==> View() == old(View())
      ensures action == "stop" ==> View() == StopCommanded(old(View()), cameraId)
      ensures action != "start" && action != "stop" ==> View() == old(View())
      ensures action == "stop" ==>
                && View().recorders == old(View()).recorders
                && forall other | other != cameraId :: SameEntries(old(View()), View(), other)
      ensures cameraId != "" && action == "stop" ==> !IsActive(View(), cameraId)
      ensures cameraId != "" && action == "start" && fetched.Some? ==>
                && View().cancelled == old(View()).cancelled
                && (IsActive(View(), fetched.value.id) <==>
                      fetched.value.enabled != Some(false) || IsActive(old(View()), fetched.value.id))
                && forall other | other != fetched.value.id :: SameEntries(old(View()), View(), other)
    {
      if cameraId == "" {
        return;
      }
      if action == "start" {
        if fetched.None? || !IsEnabled(fetched.value) {
          return;
        }
        var cam := fetched.value;
        if seconds > 0 {
          recordingSegments := recordingSegments[cam.id := seconds];
        }
        if !(cam.id in activeRecordings && activeRecordings[cam.id]) {
          StartRecordingLocked(cam);
        }
      } else if action == "stop" {
        if cameraId in activeRecordings && activeRecordings[cameraId] {
          StopRecordingLocked(cameraId);
        }
      }
    }

    /** The checks a recorder makes at the start of a segment; false when it leaves the loop. */
    method SegmentGate(t: Token, fetched: Option<Camera>) returns (record: bool)
      requires Possible(View(), Refresh(t, fetched))
      modifies this
      ensures var checked := Next(Next(old(View()), Refresh(t, fetched)), CheckActive(t));
              if checked.recorders[t].phase.Allowed?
              then View() == Next(checked, CheckEnabled(t)) && record == View().recorders[t].phase.Recording?
              else View() == checked && !record
    {
      var currentCam := if fetched.Some? then fetched.value else recorders[t].camera;
      if !(currentCam.id in activeRecordings && activeRecordings[currentCam.id]) {
        recorders := recorders[t := recorders[t].(phase := Done)];
        return false;
      }
      if !IsEnabled(currentCam) {
        recorders := recorders[t := recorders[t].(phase := Done)];
        StopRecordingLocked(currentCam.id);
        return false;
      }
      recorders := recorders[t := recorders[t].(phase := Recording(currentCam))];
      return true;
    }
  }

  lemma StopNothing(w: World)
    ensures StopAll(w, {}) == w
  {
    assert w.active - {} == w.active;
    assert w.cancels - {} == w.cancels;
    assert w.segments - {} == w.segments;
  }

  /** Stopping one set and then another is stopping both. */
  lemma StopTwice(w: World, first: set<string>, second: set<string>)
    ensures StopAll(StopAll(w, first), second) == StopAll(w, first + second)
  {
    assert w.active - first - second == w.active - (first + second);
    assert w.cancels - first - second == w.cancels - (first + second);
    assert w.segments - first - second == w.segments - (first + second);
  }

  // ---------------------------------------------------------------------------------------------
  // Safety over every interleaving
  // ---------------------------------------------------------------------------------------------

  ghost predicate Live(w: World, t: Token) { t < |w.recorders| && t !in w.cancelled }

  /**
    The three maps agree, and the stored cancels are exactly the contexts not yet cancelled. `own` adds what
    holds when every refresh is answered with the recorder's own camera: a live recorder has not returned.
   */
  ghost predicate Consistent(w: World, own: bool) {
    && w.active.Keys == w.cancels.Keys && w.segments.Keys <= w.active.Keys
    && (forall id | id in w.active :: w.active[id])
    && (forall id | id in w.cancels :: Live(w, w.cancels[id]) && w.recorders[w.cancels[id]].camera.id == id)
    && (forall t: Token | Live(w, t) :: Owns(w, t, own))
    && (own ==> forall t | 0 <= t < |w.recorders| :: OnOwnCamera(w.recorders[t]))
  }

  /** The recorder's camera is active and its own cancel is the one stored. */
  predicate Owns(w: World, t: Token, own: bool)
    requires t < |w.recorders|
  {
    var id := w.recorders[t].camera.id;
    id in w.cancels && w.cancels[id] == t && (own ==> !w.recorders[t].phase.Done?)
  }

  /** A refresh, if answered, is answered with the recorder's own camera. */
  predicate OwnAnswer(w: World, e: Event) {
    e.Refresh? && At(w, e.t) && e.fetched.Some? ==> e.fetched.value.id == w.recorders[e.t].camera.id
  }

  predicate OwnAnswers(events: seq<Event>) {
    events == [] ||
    (OwnAnswers(events[..|events| - 1]) && OwnAnswer(RunOf(events[..|events| - 1]), events[|events| - 1]))
  }

  predicate OnOwnCamera(r: Recorder) {
    r.phase.Fetched? || r.phase.Allowed? || r.phase.Recording? ==> r.phase.current.id == r.camera.id
  }

  lemma StartKeepsConsistent(w: World, cam: Camera, own: bool)
    requires Consistent(w, own) && !IsActive(w, cam.id)
    requires forall t | t in w.cancelled :: t < |w.recorders|
    ensures Consistent(StartLocked(w, cam), own)
  {
    var after := StartLocked(w, cam);
    forall t: Token | Live(after, t)
      ensures Owns(after, t, own)
    {
      if t < |w.recorders| {
        assert Live(w, t) && Owns(w, t, own);
      }
    }
    forall id | id in after.cancels
      ensures Live(after, after.cancels[id]) && after.recorders[after.cancels[id]].camera.id == id
    {
      if id != cam.id {
        assert Live(w, w.cancels[id]);
      }
    }
  }

  lemma StopKeepsConsistent(w: World, ids: set<string>, own: bool)
    requires Consistent(w, own)
    ensures Consistent(StopAll(w, ids), own)
  {
    var after := StopAll(w, ids);
    forall t: Token | Live(after, t)
      ensures Owns(after, t, own)
    {
      assert Owns(w, t, own);
    }
    forall id | id in after.cancels
      ensures Live(after, after.cancels[id])
    {
      assert Owns(w, w.cancels[id], own);
    }
  }

  /** The segment length is noted before the start, so only the end of the locked section is consistent. */
  lemma StartCommandKeepsConsistent(w: World, noted: World, cam: Camera, own: bool)
    requires Consistent(w, own) && Issued(w)
    requires noted == w.(segments := noted.segments) && noted.segments.Keys <= w.segments.Keys + {cam.id}
    ensures Consistent(if IsActive(noted, cam.id) then noted else StartLocked(noted, cam), own)
  {
    if IsActive(w, cam.id) {
      SameContextsStayConsistent(w, noted, own);
    } else {
      StartKeepsConsistent(w, cam, own);
      SameContextsStayConsistent(StartLocked(w, cam), StartLocked(noted, cam), own);
    }
  }

  /** Only the segment lengths differ. */
  lemma SameContextsStayConsistent(w: World, v: World, own: bool)
    requires Consistent(w, own) && v == w.(segments := v.segments) && v.segments.Keys <= w.active.Keys
    ensures Consistent(v, own)
  {
    forall t: Token | Live(v, t)
      ensures Owns(v, t, own)
    {
      assert Live(w, t) && Owns(w, t, own);
    }
    forall id | id in v.cancels
      ensures Live(v, v.cancels[id])
    {
      assert Live(w, w.cancels[id]);
    }
  }

  /** A recorder moves to another phase of its loop; it may return only if its context is cancelled. */
  lemma MoveKeepsConsistent(w: World, t: Token, phase: Phase, own: bool)
    requires Consistent(w, own) && t < |w.recorders|
    requires own && phase.Done? ==> t in w.cancelled
    requires own ==> OnOwnCamera(w.recorders[t].(phase := phase))
    ensures Consistent(Moved(w, t, phase), own)
  {
    var after := Moved(w, t, phase);
    forall s: Token | Live(after, s)
      ensures Owns(after, s, own)
    {
      assert Live(w, s) && Owns(w, s, own);
    }
    forall id | id in after.cancels
      ensures Live(after, after.cancels[id]) && after.recorders[after.cancels[id]].camera.id == id
    {
      assert Live(w, w.cancels[id]);
    }
  }

  predicate Issued(w: World) { forall t | t in w.cancelled :: t < |w.recorders| }

  lemma NextKeepsConsistent(w: World, e: Event, own: bool)
    requires Consistent(w, own) && Issued(w) && Possible(w, e)
    requires own ==> OwnAnswer(w, e)
    ensures Consistent(Next(w, e), own) && Issued(Next(w, e))
  {
    match e
    case Clean(cameras) => StopKeepsConsistent(w, w.active.Keys - IdsOf(cameras), own);
    case Reconcile(cam) =>
      if IsActive(w, cam.id) {
        StopKeepsConsistent(w, {cam.id}, own);
      } else {
        StartKeepsConsistent(w, cam, own);
      }
    case StartCommand(cam, seconds) =>
      if IsEnabled(cam) {
        var noted := if seconds > 0 then w.(segments := w.segments[cam.id := seconds]) else w;
        StartCommandKeepsConsistent(w, noted, cam, own);
      }
    case StopCommand(id) => StopKeepsConsistent(w, {id}, own);
    case CheckEnabled(t) =>
      assert own ==> OnOwnCamera(w.recorders[t]);
      if IsEnabled(w.recorders[t].phase.current) {
        MoveKeepsConsistent(w, t, Recording(w.recorders[t].phase.current), own);
      } else {
        LeavingKeepsConsistent(w, t, w.recorders[t].phase.current.id, own);
      }
    case Recover(t) => LeavingKeepsConsistent(w, t, w.recorders[t].camera.id, own);
    case CheckActive(t) =>
      assert own ==> OnOwnCamera(w.recorders[t]);
      assert Live(w, t) ==> Owns(w, t, own);
      MoveKeepsConsistent(w, t, Next(w, e).recorders[t].phase, own);
    case Refresh(t, fetched) => MoveKeepsConsistent(w, t, Next(w, e).recorders[t].phase, own);
    case NextSegment(t) => MoveKeepsConsistent(w, t, Top, own);
    case ExitCancelled(t) => MoveKeepsConsistent(w, t, Done, own);
    case Panic(t) => MoveKeepsConsistent(w, t, Panicking, own);
  }

  /** A recorder that stops its camera and returns: the stop is what makes returning safe. */
  lemma LeavingKeepsConsistent(w: World, t: Token, id: string, own: bool)
    requires Consistent(w, own) && Issued(w) && t < |w.recorders| && (own ==> id == w.recorders[t].camera.id)
    ensures Consistent(StopLocked(Moved(w, t, Done), id), own)
  {
    StopKeepsConsistent(w, {id}, own);
    var stopped := StopLocked(w, id);
    assert own ==> !Live(stopped, t) by {
      if Live(w, t) {
        assert Owns(w, t, own);
      }
    }
    MoveKeepsConsistent(stopped, t, Done, own);
    assert StopLocked(Moved(w, t, Done), id) == Moved(stopped, t, Done);
  }

  /** The world after a sequence of events; one that cannot happen where it stands changes nothing. */
  function RunOf(events: seq<Event>): World {
    if events == [] then Boot
    else
      var w := RunOf(events[..|events| - 1]);
      if Possible(w, events[|events| - 1]) then Next(w, events[|events| - 1]) else w
  }

  lemma {:induction false} RunsAreConsistent(events: seq<Event>, own: bool)
    requires own ==> OwnAnswers(events)
    ensures Consistent(RunOf(events), own) && Issued(RunOf(events))
  {
    if events != [] {
      var n := |events| - 1;
      RunsAreConsistent(events[..n], own);
      if Possible(RunOf(events[..n]), events[n]) {
        NextKeepsConsistent(RunOf(events[..n]), events[n], own);
      }
    }
  }

  /**
    In every interleaving: a camera is marked active exactly when some recorder of it has an uncancelled
    context; that recorder is the only one, and its cancel is the one stored. It has not returned, where every
    refresh was answered with the recorder's own camera.
   */
  lemma ActiveMeansOneRecorder(events: seq<Event>, id: string, t: Token, u: Token)
    ensures var w := RunOf(events);
            && (IsActive(w, id) <==> exists s: nat :: Live(w, s) && w.recorders[s].camera.id == id)
            && (Live(w, t) && Live(w, u) && w.recorders[t].camera.id == w.recorders[u].camera.id ==> t == u)
            && (Live(w, t) && w.recorders[t].camera.id == id ==>
                  && id in w.cancels && w.cancels[id] == t
                  && (OwnAnswers(events) ==> !w.recorders[t].phase.Done?))
            && (id in w.segments ==> IsActive(w, id))
  {
    var w := RunOf(events);
    RunsAreConsistent(events, false);
    if OwnAnswers(events) {
      RunsAreConsistent(events, true);
    }
    if IsActive(w, id) {
      assert Live(w, w.cancels[id]);
    }
    forall s: nat | Live(w, s)
      ensures Owns(w, s, OwnAnswers(events))
    {
      assert Owns(w, s, false);
    }
  }

  /** As many uncancelled contexts as active cameras, whatever was started, stopped or lost to a panic. */
  lemma OneContextPerActiveCamera(events: seq<Event>)
    ensures |Uncancelled(RunOf(events))| == |RunOf(events).active|
  {
    var w := RunOf(events);
    RunsAreConsistent(events, false);
    UncancelledAreStored(w, false);
    InjectiveImage(w, w.active.Keys, false);
  }

  function Uncancelled(w: World): set<Token> { set t: Token | t < |w.recorders| && t !in w.cancelled }

  function Stored(w: World, ids: set<string>): set<Token>
    requires ids <= w.cancels.Keys
  {
    set id | id in ids :: w.cancels[id]
  }

  lemma UncancelledAreStored(w: World, own: bool)
    requires Consistent(w, own)
    ensures Uncancelled(w) == Stored(w, w.active.Keys)
  {
    forall t
      ensures t in Uncancelled(w) <==> t in Stored(w, w.active.Keys)
    {
      if t in Uncancelled(w) {
        assert Live(w, t) && Owns(w, t, own);
      }
    }
  }

  lemma {:induction false} InjectiveImage(w: World, ids: set<string>, own: bool)
    requires Consistent(w, own) && ids <= w.cancels.Keys
    ensures |Stored(w, ids)| == |ids|
    decreases |ids|
  {
    if ids != {} {
      var id :| id in ids;
      var rest := ids - {id};
      InjectiveImage(w, rest, own);
      assert Stored(w, ids) == Stored(w, rest) + {w.cancels[id]};
      assert w.cancels[id] !in Stored(w, rest);
    }
  }

  // ---------------------------------------------------------------------------------------------
  // What one event changes, camera by camera
  // ---------------------------------------------------------------------------------------------

  /** The three maps say the same about a camera. */
  predicate SameEntries(w: World, v: World, id: string) {
    && (id in v.active <==> id in w.active) && (id in w.active ==> v.active[id] == w.active[id])
    && (id in v.cancels <==> id in w.cancels) && (id in w.cancels ==> v.cancels[id] == w.cancels[id])
    && (id in v.segments <==> id in w.segments) && (id in w.segments ==> v.segments[id] == w.segments[id])
  }

  /** Nothing about a camera is left in the maps, and of the contexts only the one stored for it is newly cancelled. */
  predicate Forgotten(w: World, v: World, id: string) {
    && id !in v.active && id !in v.cancels && id !in v.segments
    && v.cancelled == (if id in w.cancels then w.cancelled + {w.cancels[id]} else w.cancelled)
  }

  /** STOP forgets the named camera if it was active, and touches no other camera and no recorder. */
  lemma StopExactly(w: World, id: string, other: string)
    ensures var after := Next(w, StopCommand(id));
            && (other != id ==> SameEntries(w, after, other))
            && after.recorders == w.recorders
            && if id != "" && id in w.active && w.active[id] then Forgotten(w, after, id) else after == w
  {
  }

  /**
    START leaves the camera active exactly when it is enabled or was active; an enabled one gets the segment
    length, and a recorder with its own context if it had none running. No context is cancelled and no other
    camera is touched.
   */
  lemma StartExactly(w: World, cam: Camera, seconds: int, other: string)
    ensures var after := Next(w, StartCommand(cam, seconds));
            var enabled, running := cam.enabled != Some(false), cam.id in w.active && w.active[cam.id];
            && (other != cam.id ==> SameEntries(w, after, other))
            && after.cancelled == w.cancelled
            && (IsActive(after, cam.id) <==> enabled || running)
            && (!enabled ==> after == w)
            && after.segments == (if enabled && seconds > 0 then w.segments[cam.id := seconds] else w.segments)
            && (running ==> after.cancels == w.cancels && after.recorders == w.recorders)
            && (enabled && !running ==>
                  after.recorders == w.recorders + [Recorder(cam, Top)]
                  && cam.id in after.cancels && after.cancels[cam.id] == |w.recorders|)
  {
  }

  /** A recorder that finds its camera disabled, or that recovers from a panic, forgets that camera and returns. */
  lemma RecorderStopExactly(w: World, t: Token, e: Event, other: string)
    requires Possible(w, e) && (e == CheckEnabled(t) || e == Recover(t))
    ensures var after, id := Next(w, e), if e == Recover(t) then w.recorders[t].camera.id else w.recorders[t].phase.current.id;
            && (other != id ==> SameEntries(w, after, other))
            && if e == Recover(t) || w.recorders[t].phase.current.enabled == Some(false)
               then Forgotten(w, after, id) && after.recorders == w.recorders[t := Recorder(w.recorders[t].camera, Done)]
               else after == w.(recorders := w.recorders[t := Recorder(w.recorders[t].camera, Recording(w.recorders[t].phase.current))])
  {
  }

  /** One camera of the list is forgotten, gets its recorder or stays as it is, and no other camera is touched. */
  lemma ReconcileExactly(w: World, cam: Camera, other: string)
    ensures var after := Next(w, Reconcile(cam));
            var recordable := cam.enabled != Some(false) && cam.recordingEnabled;
            var running := cam.id in w.active && w.active[cam.id];
            && (other != cam.id ==> SameEntries(w, after, other))
            && (recordable == running ==> after == w)
            && (!recordable && running ==> Forgotten(w, after, cam.id) && after.recorders == w.recorders)
            && (recordable && !running ==>
                  IsActive(after, cam.id) && after.cancelled == w.cancelled && after.segments == w.segments
                  && after.recorders == w.recorders + [Recorder(cam, Top)]
                  && cam.id in after.cancels && after.cancels[cam.id] == |w.recorders|)
  {
  }

  /** A recorder goes on to a segment exactly when the camera its refresh gave is active and not disabled. */
  lemma SegmentStartsExactly(w: World, t: Token, fetched: Option<Camera>)
    requires Possible(w, Refresh(t, fetched))
    ensures var cam := if fetched.Some? then fetched.value else w.recorders[t].camera;
            var checked := Next(Next(w, Refresh(t, fetched)), CheckActive(t));
            if cam.id in w.active && w.active[cam.id]
            then Possible(checked, CheckEnabled(t))
                 && Next(checked, CheckEnabled(t)).recorders[t].phase == (if cam.enabled == Some(false) then Done else Recording(cam))
            else checked == w.(recorders := w.recorders[t := Recorder(w.recorders[t].camera, Done)])
  {
    var w1 := Next(w, Refresh(t, fetched));
    var w2 := Next(w1, CheckActive(t));
    assert w2.active == w.active;
    assert w1.recorders[t := Recorder(w.recorders[t].camera, Done)] == w.recorders[t := Recorder(w.recorders[t].camera, Done)];
  }

  /** Which cameras are active after an event, whatever the state. */
  lemma ActiveAfterExactly(w: World, e: Event, id: string)
    requires Possible(w, e)
    ensures IsActive(Next(w, e), id) <==>
            match e
            case Clean(cameras) => IsActive(w, id) && exists k :: 0 <= k < |cameras| && cameras[k].id == id
            case Reconcile(cam) => if cam.id == id then cam.enabled != Some(false) && cam.recordingEnabled else IsActive(w, id)
            case StartCommand(cam, _) => IsActive(w, id) || (cam.id == id && cam.enabled != Some(false))
            case StopCommand(named) => IsActive(w, id) && (named != id || id == "")
            case CheckEnabled(t) =>
              var cam := w.recorders[t].phase.current;
              IsActive(w, id) && !(cam.id == id && cam.enabled == Some(false))
            case Recover(t) => IsActive(w, id) && w.recorders[t].camera.id != id
            case _ => IsActive(w, id)
  {
    if e.Clean? {
      assert id in IdsOf(e.cameras) <==> exists k :: 0 <= k < |e.cameras| && e.cameras[k].id == id;
    }
  }

  /**
    In every run an event cancels a context exactly when the camera of that context stops being active by it,
    and starts exactly the recorder of a camera that becomes active by it.
   */
  lemma ContextsFollowActivity(events: seq<Event>, e: Event, t: Token)
    requires Possible(RunOf(events), e)
    ensures var w, after := RunOf(events), Next(RunOf(events), e);
            && (Live(w, t) ==>
                  (t in after.cancelled <==> IsActive(w, w.recorders[t].camera.id) && !IsActive(after, w.recorders[t].camera.id)))
            && (t in w.cancelled ==> t in after.cancelled)
            && |w.recorders| <= |after.recorders|
            && (t < |w.recorders| ==> after.recorders[t].camera == w.recorders[t].camera)
            && (|w.recorders| <= t < |after.recorders| ==>
                  t == |w.recorders| && t !in after.cancelled
                  && !IsActive(w, after.recorders[t].camera.id) && IsActive(after, after.recorders[t].camera.id))
  {
    var w := RunOf(events);
    RunsAreConsistent(events, false);
    NextKeepsConsistent(w, e, false);
    assert Live(w, t) ==> Owns(w, t, false);
    assert Live(Next(w, e), t) ==> Owns(Next(w, e), t, false);
    EventGrows(w, e, t);
  }

  lemma EventGrows(w: World, e: Event, t: Token)
    requires Consistent(w, false) && Issued(w) && Possible(w, e)
    ensures var after := Next(w, e);
            && w.cancelled <= after.cancelled
            && |w.recorders| <= |after.recorders| <= |w.recorders| + 1
            && (t < |w.recorders| ==> after.recorders[t].camera == w.recorders[t].camera)
            && (t in after.cancelled && t !in w.cancelled ==> exists id :: id in w.cancels && w.cancels[id] == t && !IsActive(after, id))
            && (t == |w.recorders| < |after.recorders| ==>
                  t !in after.cancelled && !IsActive(w, after.recorders[t].camera.id) && IsActive(after, after.recorders[t].camera.id))
  {
    assert forall id | id in w.cancels :: Live(w, w.cancels[id]);
  }

  // ---------------------------------------------------------------------------------------------
  // What a reconcile pass establishes
  // ---------------------------------------------------------------------------------------------

  function PassFrom(w: World, cameras: seq<Camera>, k: nat): World
    requires k <= |cameras|
    decreases |cameras| - k
  {
    if k == |cameras| then w else PassFrom(Reconciled(w, cameras[k]), cameras, k + 1)
  }

  /** The last entry for a camera in the list decides. */
  predicate WantedFrom(cameras: seq<Camera>, k: nat, id: string, otherwise: bool)
    requires k <= |cameras|
    decreases |cameras| - k
  {
    if k == |cameras| then otherwise
    else WantedFrom(cameras, k + 1, id, if cameras[k].id == id then IsRecordable(cameras[k]) else otherwise)
  }

  lemma {:induction false} PassDecides(w: World, cameras: seq<Camera>, k: nat, id: string)
    requires k <= |cameras|
    ensures IsActive(PassFrom(w, cameras, k), id) <==> WantedFrom(cameras, k, id, IsActive(w, id))
    decreases |cameras| - k
  {
    if k < |cameras| {
      PassDecides(Reconciled(w, cameras[k]), cameras, k + 1, id);
    }
  }

  lemma {:induction false} WantedIsListed(cameras: seq<Camera>, k: nat, id: string, otherwise: bool)
    requires k <= |cameras|
    requires forall i, j | k <= i < j < |cameras| :: cameras[i].id != cameras[j].id
    ensures WantedFrom(cameras, k, id, otherwise) <==>
              if exists i :: k <= i < |cameras| && cameras[i].id == id
              then exists i :: k <= i < |cameras| && cameras[i].id == id && IsRecordable(cameras[i])
              else otherwise
    decreases |cameras| - k
  {
    if k < |cameras| {
      WantedIsListed(cameras, k + 1, id, if cameras[k].id == id then IsRecordable(cameras[k]) else otherwise);
    }
  }

  /** An uninterrupted pass ends with exactly the recordable cameras of the list active, from any state. */
  lemma PassLeavesRecordable(w: World, cameras: seq<Camera>, id: string)
    requires forall i, j | 0 <= i < j < |cameras| :: cameras[i].id != cameras[j].id
    ensures IsActive(PassFrom(Cleaned(w, cameras), cameras, 0), id) <==>
            exists i :: 0 <= i < |cameras| && cameras[i].id == id && cameras[i].enabled != Some(false) && cameras[i].recordingEnabled
  {
    var cleaned := Cleaned(w, cameras);
    PassDecides(cleaned, cameras, 0, id);
    WantedIsListed(cameras, 0, id, IsActive(cleaned, id));
    if IsActive(cleaned, id) {
      assert id in IdsOf(cameras);
    }
  }

  // ---------------------------------------------------------------------------------------------
  // A recorder that outlives its context
  // ---------------------------------------------------------------------------------------------

  /** The events by which a recorder stops its camera. */
  predicate StopsCamera(w: World, t: Token, e: Event)
    requires Possible(w, e)
  {
    || e == Recover(t)
    || (e == CheckEnabled(t) && !IsEnabled(w.recorders[t].phase.current))
  }

  /** The camera it stops: its own, or the one its refresh was answered with. */
  function StoppedId(w: World, t: Token, e: Event): string
    requires Possible(w, e) && StopsCamera(w, t, e)
  {
    if e == Recover(t) then w.recorders[t].camera.id else w.recorders[t].phase.current.id
  }

  /**
    When a recorder stops a camera it cancels a context other than its own exactly when that camera is active
    and either it is another camera than its own, or its own context was already cancelled and the camera has
    been started again.
   */
  lemma StopHitsSuccessorExactly(events: seq<Event>, t: Token, e: Event)
    requires Possible(RunOf(events), e) && StopsCamera(RunOf(events), t, e)
    ensures var w := RunOf(events);
            (exists s: Token :: s != t && Live(w, s) && s in Next(w, e).cancelled) <==>
            IsActive(w, StoppedId(w, t, e)) && (t in w.cancelled || StoppedId(w, t, e) != w.recorders[t].camera.id)
  {
    var w := RunOf(events);
    RunsAreConsistent(events, false);
    var id := StoppedId(w, t, e);
    var after := Next(w, e);
    assert after.cancelled == StopLocked(w, id).cancelled;
    if IsActive(w, id) && (t in w.cancelled || id != w.recorders[t].camera.id) {
      var s := w.cancels[id];
      assert s != t && Live(w, s) && s in after.cancelled;
    }
    forall s: Token | s != t && Live(w, s) && s in after.cancelled
      ensures IsActive(w, id) && (t in w.cancelled || id != w.recorders[t].camera.id)
    {
      assert id in w.cancels && w.cancels[id] == s;
      assert Live(w, t) ==> Owns(w, t, false);
    }
  }

  /** Every event of the sequence can happen where it stands. */
  predicate AllPossible(events: seq<Event>) {
    events == [] ||
    (&& AllPossible(events[..|events| - 1])
     && Possible(RunOf(events[..|events| - 1]), events[|events| - 1]))
  }

  lemma OneMore(events: seq<Event>, e: Event)
    requires AllPossible(events) && Possible(RunOf(events), e)
    ensures AllPossible(events + [e]) && RunOf(events + [e]) == Next(RunOf(events), e)
  {
    assert (events + [e])[..|events|] == events;
  }

  /**
    Such runs exist. A recorder fetches its camera as disabled; the camera is stopped, then started again
    while enabled; the first recorder acts on what it fetched and the camera ends inactive.
   */
  lemma StaleRecorderStopsRestartedCamera(id: string) returns (events: seq<Event>)
    requires id != ""
    ensures AllPossible(events) && |events| == 6 && events[3] == StartCommand(Camera(id, Some(true), true), 0)
    ensures events[4] == CheckActive(0) && events[5] == CheckEnabled(0)
    ensures !IsActive(RunOf(events), id) && 1 in RunOf(events).cancelled
  {
    hide RunOf, AllPossible, Next;
    var on, off := Camera(id, Some(true), true), Camera(id, Some(false), true);
    events := FetchedThenRestarted(on, off);
    OneMore(events, CheckActive(0));
    StaleChecks(RunOf(events), on, off);
    events := events + [CheckActive(0)];
    OneMore(events, CheckEnabled(0));
    events := events + [CheckEnabled(0)];
  }

  /** The camera runs its second recorder, while the first one has yet to act on what it fetched. */
  predicate StaleFetch(w: World, on: Camera, off: Camera) {
    && |w.recorders| == 2 && w.recorders[0] == Recorder(on, Fetched(off))
    && IsActive(w, on.id) && on.id in w.cancels && w.cancels[on.id] == 1
  }

  lemma FetchedThenRestarted(on: Camera, off: Camera) returns (events: seq<Event>)
    requires on.id != "" && on.id == off.id && IsEnabled(on)
    ensures AllPossible(events) && |events| == 4 && events[3] == StartCommand(on, 0)
    ensures StaleFetch(RunOf(events), on, off)
  {
    hide RunOf, AllPossible;
    StartsAtBoot();
    events := [];
    OneMore(events, StartCommand(on, 0));
    events := events + [StartCommand(on, 0)];
    OneMore(events, Refresh(0, Some(off)));
    events := events + [Refresh(0, Some(off))];
    OneMore(events, StopCommand(on.id));
    events := events + [StopCommand(on.id)];
    OneMore(events, StartCommand(on, 0));
    events := events + [StartCommand(on, 0)];
  }

  lemma StaleChecks(w: World, on: Camera, off: Camera)
    requires StaleFetch(w, on, off) && on.id == off.id && !IsEnabled(off)
    ensures Possible(w, CheckActive(0)) && Possible(Next(w, CheckActive(0)), CheckEnabled(0))
    ensures var end := Next(Next(w, CheckActive(0)), CheckEnabled(0));
            !IsActive(end, on.id) && 1 in end.cancelled
  {
  }

  /** A refresh answered with another camera can leave a camera active whose recorder has returned. */
  lemma ForeignAnswerOrphans(id: string, other: Camera) returns (events: seq<Event>)
    requires id != "" && other.id != id
    ensures AllPossible(events) && events == [StartCommand(Camera(id, Some(true), true), 0), Refresh(0, Some(other)), CheckActive(0)]
    ensures IsActive(RunOf(events), id) && Live(RunOf(events), 0)
    ensures RunOf(events).recorders == [Recorder(Camera(id, Some(true), true), Done)]
  {
    hide RunOf, AllPossible;
    StartsAtBoot();
    events := [];
    OneMore(events, StartCommand(Camera(id, Some(true), true), 0));
    events := events + [StartCommand(Camera(id, Some(true), true), 0)];
    OneMore(events, Refresh(0, Some(other)));
    events := events + [Refresh(0, Some(other))];
    OneMore(events, CheckActive(0));
    events := events + [CheckActive(0)];
  }

  lemma StartsAtBoot()
    ensures AllPossible([]) && RunOf([]) == Boot
  {
  }
}
