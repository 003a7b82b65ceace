/**
  `ModelRegistry`: one detector per mode, loaded by the first thread that asks while the others wait. Each
  access of a thread to the shared dictionaries, inside or outside the lock, is one step.
 */
module ModelRegistry {
  import opened Wrappers

  type Key = string

  /** Detectors and events are identified by when they were created. */
  type Detector = nat
  type EventId = nat

  /** The registry's fields; `issued` counts the events created, `signalled` holds those that were set. */
  datatype Shared = Shared(
    cache: map<Key, Detector>,
    loading: map<Key, EventId>,
    failed: bool,
    issued: nat,
    signalled: set<EventId>)

  datatype Entry = Found(detector: Detector) | Load(event: EventId) | Wait

  /** The locked section at the head of `ensure_detector`. */
  function Enter(s: Shared, key: Key): (Shared, Entry) {
    if key in s.cache then (s, Found(s.cache[key]))
    else if key !in s.loading then (s.(loading := s.loading[key := s.issued], issued := s.issued + 1), Load(s.issued))
    else (s, Wait)
  }

  /** The locked section in the `finally`: the event, if any, that is registered for the key now. */
  function Leave(s: Shared, key: Key): (Shared, Option<EventId>) {
    (s.(loading := s.loading - {key}), if key in s.loading then Some(s.loading[key]) else None)
  }

  function Cleared(s: Shared): Shared { s.(cache := map[], loading := map[], failed := false) }

  class Registry {
    var cache: map<Key, Detector>
    var loading: map<Key, EventId>
    var failed: bool
    var issued: nat
    var signalled: set<EventId>

    function View(): Shared
      reads this
    {
      Shared(cache, loading, failed, issued, signalled)
    }

    constructor ()
      ensures View() == Shared(map[], map[], false, 0, {})
    {
      cache, loading, failed, issued, signalled := map[], map[], false, 0, {};
    }

    method EnterLocked(key: Key) returns (entry: Entry)
      modifies this
      ensures (View(), entry) == Enter(old(View()), key)
    {
      if key in cache {
        return Found(cache[key]);
      }
      if key !in loading {
        loading := loading[key := issued];
        issued := issued + 1;
        return Load(loading[key]);
      }
      return Wait;
    }

    method LeaveLocked(key: Key) returns (event: Option<EventId>)
      modifies this
      ensures (View(), event) == Leave(old(View()), key)
    {
      event := if key in loading then Some(loading[key]) else None;
      loading := loading - {key};
    }

    method Signal(event: Option<EventId>)
      modifies this
      ensures View() == old(View()).(signalled := old(signalled) + if event.Some? then {event.value} else {})
    {
      if event.Some? {
        signalled := signalled + {event.value};
      }
    }

    method Reset()
      modifies this
      ensures View() == Cleared(old(View()))
    {
      cache, loading, failed := map[], map[], false;
    }

    /** One undisturbed call; `built` is what building and loading the detector gives, `None` an exception. */
    method EnsureDetector(key: Key, built: Option<Detector>) returns (result: Option<Detector>)
      requires key !in loading
      modifies this
      ensures loading == old(loading)
      ensures key in old(cache) ==> result == Some(old(cache)[key]) && View() == old(View())
      ensures key !in old(cache) ==>
                && result == built
                && cache == (if built.Some? then old(cache)[key := built.value] else old(cache))
                && failed == (old(failed) || built.None?)
                && old(issued) in signalled
    {
      if key in cache {
        return Some(cache[key]);
      }
      var entry := EnterLocked(key);
      if built.Some? {
        cache := cache[key := built.value];
      } else {
        failed := true;
      }
      var event := LeaveLocked(key);
      assert loading == old(loading);
      Signal(event);
      return built;
    }
  }

  // ---------------------------------------------------------------------------------------------
  // Threads
  // ---------------------------------------------------------------------------------------------

  datatype Pc =
    | Start
    | Hit
    | Miss
    | MustWait
    | Waiting(event: EventId)
    | Woken
    | Loading(event: EventId)
    | Finishing(result: Option<Detector>)
    | Popped(popped: Option<EventId>, result: Option<Detector>)
    | Returned(detector: Detector)
    | Raised

  datatype Thread = Thread(key: Key, pc: Pc)

  /** What happened since the last reset: a load that succeeded, a detector handed to a caller. */
  datatype Fact = LoadedFact(key: Key, detector: Detector) | ReturnedFact(key: Key, detector: Detector)

  datatype World = World(shared: Shared, threads: seq<Thread>, built: nat, log: seq<Fact>)

  const Boot := World(Shared(map[], map[], false, 0, {}), [], 0, [])

  datatype Step =
    | Call(key: Key)
    | Advance(t: nat)
    | LoadFails(t: nat)
    | Reset

  function Place(w: World, t: nat, pc: Pc): World
    requires t < |w.threads|
  {
    w.(threads := w.threads[t := w.threads[t].(pc := pc)])
  }

  function HandOver(w: World, t: nat, d: Detector): World
    requires t < |w.threads|
  {
    Place(w, t, Returned(d)).(log := w.log + [ReturnedFact(w.threads[t].key, d)])
  }

  /** The next access of thread `t` to the registry; a load that advances is one that succeeds. */
  function AdvanceThread(w: World, t: nat): World
    requires t < |w.threads|
  {
    var s, key := w.shared, w.threads[t].key;
    match w.threads[t].pc
    case Start => Place(w, t, if key in s.cache then Hit else Miss)
    case Hit => if key in s.cache then HandOver(w, t, s.cache[key]) else Place(w, t, Raised)
    case Miss =>
      var (after, entry) := Enter(s, key);
      (match entry
       case Found(d) => HandOver(w.(shared := after), t, d)
       case Load(e) => Place(w.(shared := after), t, Loading(e))
       case Wait => Place(w.(shared := after), t, MustWait))
    case MustWait => Place(w, t, if key in s.loading then Waiting(s.loading[key]) else Raised)
    case Waiting(_) => Place(w, t, Woken)
    case Woken => if key in s.cache then HandOver(w, t, s.cache[key]) else Place(w, t, Raised)
    case Loading(_) =>
      Place(w, t, Finishing(Some(w.built))).(
        shared := s.(cache := s.cache[key := w.built]),
        built := w.built + 1,
        log := w.log + [LoadedFact(key, w.built)])
    case Finishing(result) =>
      var (after, event) := Leave(s, key);
      Place(w.(shared := after), t, Popped(event, result))
    case Popped(event, result) =>
      var signalled := s.(signalled := s.signalled + if event.Some? then {event.value} else {});
      if result.Some? then HandOver(w.(shared := signalled), t, result.value)
      else Place(w.(shared := signalled), t, Raised)
    case Returned(_) => w
    case Raised => w
  }

  function Next(w: World, step: Step): World {
    match step
    case Call(key) => w.(threads := w.threads + [Thread(key, Start)])
    case Advance(t) => if t < |w.threads| then AdvanceThread(w, t) else w
    case LoadFails(t) =>
      if t < |w.threads| && w.threads[t].pc.Loading?
      then Place(w, t, Finishing(None)).(shared := w.shared.(failed := true)) else w
    case Reset => w.(shared := Cleared(w.shared), log := [])
  }

  function RunFrom(w: World, steps: seq<Step>): World {
    if steps == [] then w else Next(RunFrom(w, steps[..|steps| - 1]), steps[|steps| - 1])
  }

  /**
    A thread alone on a key that nobody loads: a cached detector is returned and nothing changes; otherwise it loads,
    returns what it has built or raises, and leaves the registration as it was, with its event signalled either way.
   */
  lemma LoneCall(w: World, key: Key)
    requires key !in w.shared.loading
    ensures var t, s := |w.threads|, w.shared;
            var called := Next(Next(Next(w, Call(key)), Advance(t)), Advance(t));
            if key in s.cache then called.threads == w.threads + [Thread(key, Returned(s.cache[key]))] && called.shared == s
            else
              var loaded := Next(Next(Next(called, Advance(t)), Advance(t)), Advance(t));
              var failed := Next(Next(Next(called, LoadFails(t)), Advance(t)), Advance(t));
              && called.threads == w.threads + [Thread(key, Loading(s.issued))]
              && called.shared == s.(loading := s.loading[key := s.issued], issued := s.issued + 1)
              && loaded.threads == w.threads + [Thread(key, Returned(w.built))]
              && loaded.shared == Shared(s.cache[key := w.built], s.loading, s.failed, s.issued + 1, s.signalled + {s.issued})
              && failed.threads == w.threads + [Thread(key, Raised)]
              && failed.shared == Shared(s.cache, s.loading, true, s.issued + 1, s.signalled + {s.issued})
  {
    var t, s := |w.threads|, w.shared;
    var w1 := Next(w, Call(key));
    var w2 := Next(w1, Advance(t));
    var w3 := Next(w2, Advance(t));
    if key in s.cache {
      assert w3.threads == w.threads + [Thread(key, Returned(s.cache[key]))];
    } else {
      assert w3.threads == w.threads + [Thread(key, Loading(s.issued))];
      assert s.loading[key := s.issued] - {key} == s.loading;
      LoneLoad(w3, t, key, s.issued, w.threads);
      LoneFailure(w3, t, key, s.issued, w.threads);
    }
  }

  lemma LoneLoad(w: World, t: nat, key: Key, event: EventId, others: seq<Thread>)
    requires t == |others| && w.threads == others + [Thread(key, Loading(event))]
    requires key in w.shared.loading && w.shared.loading[key] == event
    ensures var s, end := w.shared, Next(Next(Next(w, Advance(t)), Advance(t)), Advance(t));
            && end.threads == others + [Thread(key, Returned(w.built))]
            && end.shared == s.(cache := s.cache[key := w.built], loading := s.loading - {key}, signalled := s.signalled + {event})
  {
    var w1 := Next(w, Advance(t));
    assert w1.threads == others + [Thread(key, Finishing(Some(w.built)))];
    var w2 := Next(w1, Advance(t));
    assert w2.threads == others + [Thread(key, Popped(Some(event), Some(w.built)))];
  }

  lemma LoneFailure(w: World, t: nat, key: Key, event: EventId, others: seq<Thread>)
    requires t == |others| && w.threads == others + [Thread(key, Loading(event))]
    requires key in w.shared.loading && w.shared.loading[key] == event
    ensures var s, end := w.shared, Next(Next(Next(w, LoadFails(t)), Advance(t)), Advance(t));
            && end.threads == others + [Thread(key, Raised)]
            && end.shared == s.(failed := true, loading := s.loading - {key}, signalled := s.signalled + {event})
  {
    var w1 := Next(w, LoadFails(t));
    assert w1.threads == others + [Thread(key, Finishing(None))];
    var w2 := Next(w1, Advance(t));
    assert w2.threads == others + [Thread(key, Popped(Some(event), None))];
  }

  // ---------------------------------------------------------------------------------------------
  // What the registry promises
  // ---------------------------------------------------------------------------------------------

  /**
    At most one thread loads a key at a time; since the last reset at most one load per key has succeeded,
    and everyone who got a detector for a key got that one.
   */
  predicate Safe(w: World) {
    && (forall t, u | 0 <= t < u < |w.threads| && w.threads[t].pc.Loading? && w.threads[u].pc.Loading? ::
          w.threads[t].key != w.threads[u].key)
    && (forall i, j | 0 <= i < j < |w.log| && w.log[i].LoadedFact? && w.log[j].LoadedFact? :: w.log[i].key != w.log[j].key)
    && (forall i, j | 0 <= i < |w.log| && 0 <= j < |w.log| && w.log[i].key == w.log[j].key ::
          w.log[i].detector == w.log[j].detector)
  }

  /** What a thread's position says about the registry. */
  predicate Backed(w: World, th: Thread) {
    match th.pc
    case Loading(_) => th.key in w.shared.loading && th.key !in w.shared.cache
    case Finishing(result) =>
      && th.key in w.shared.loading
      && (if result.Some? then th.key in w.shared.cache && w.shared.cache[th.key] == result.value
          else th.key !in w.shared.cache)
    case Popped(_, result) => result.Some? ==> th.key in w.shared.cache && w.shared.cache[th.key] == result.value
    case _ => true
  }

  predicate Busy(th: Thread) { th.pc.Loading? || th.pc.Finishing? }

  predicate Recorded(w: World, fact: Fact) {
    fact.key in w.shared.cache && w.shared.cache[fact.key] == fact.detector
  }

  predicate Protocol(w: World) {
    && (forall t | 0 <= t < |w.threads| :: Backed(w, w.threads[t]))
    && (forall t, u | 0 <= t < u < |w.threads| && Busy(w.threads[t]) && Busy(w.threads[u]) ::
          w.threads[t].key != w.threads[u].key)
    && (forall i | 0 <= i < |w.log| :: Recorded(w, w.log[i]))
    && (forall i, j | 0 <= i < j < |w.log| && w.log[i].LoadedFact? && w.log[j].LoadedFact? :: w.log[i].key != w.log[j].key)
    && (forall k | k in w.shared.cache :: w.shared.cache[k] < w.built)
  }

  /** A thread that touches only its own position. */
  lemma PlaceKeepsProtocol(w: World, t: nat, pc: Pc)
    requires Protocol(w) && t < |w.threads|
    requires Backed(w, w.threads[t].(pc := pc))
    requires Busy(w.threads[t].(pc := pc)) ==> Busy(w.threads[t])
    ensures Protocol(Place(w, t, pc))
  {
    var after := Place(w, t, pc);
    forall u | 0 <= u < |after.threads|
      ensures Backed(after, after.threads[u])
    {
      assert Backed(w, w.threads[u]);
    }
    forall i | 0 <= i < |after.log|
      ensures Recorded(after, after.log[i])
    {
      assert Recorded(w, w.log[i]);
    }
  }

  lemma HandOverKeepsProtocol(w: World, t: nat, d: Detector)
    requires Protocol(w) && t < |w.threads|
    requires w.threads[t].key in w.shared.cache && w.shared.cache[w.threads[t].key] == d
    ensures Protocol(HandOver(w, t, d))
  {
    PlaceKeepsProtocol(w, t, Returned(d));
    var placed, after := Place(w, t, Returned(d)), HandOver(w, t, d);
    forall u | 0 <= u < |after.threads|
      ensures Backed(after, after.threads[u])
    {
      assert Backed(placed, placed.threads[u]);
    }
    forall i | 0 <= i < |after.log|
      ensures Recorded(after, after.log[i])
    {
      if i < |w.log| {
        assert Recorded(w, w.log[i]);
      }
    }
  }

  lemma BecomeLoaderKeepsProtocol(w: World, t: nat)
    requires Protocol(w) && t < |w.threads| && w.threads[t].pc.Miss?
    requires w.threads[t].key !in w.shared.cache && w.threads[t].key !in w.shared.loading
    ensures Protocol(AdvanceThread(w, t))
  {
    var (shared, entry) := Enter(w.shared, w.threads[t].key);
    var after := AdvanceThread(w, t);
    forall u | 0 <= u < |w.threads|
      ensures Backed(after, after.threads[u])
      ensures u != t && Busy(w.threads[u]) ==> w.threads[u].key != w.threads[t].key
    {
      assert Backed(w, w.threads[u]);
    }
    forall i | 0 <= i < |after.log|
      ensures Recorded(after, after.log[i])
    {
      assert Recorded(w, w.log[i]);
    }
  }

  lemma LoadKeepsProtocol(w: World, t: nat)
    requires Protocol(w) && t < |w.threads| && w.threads[t].pc.Loading?
    ensures Protocol(AdvanceThread(w, t))
  {
    var after, key := AdvanceThread(w, t), w.threads[t].key;
    assert Backed(w, w.threads[t]);
    forall u | 0 <= u < |w.threads|
      ensures Backed(after, after.threads[u])
    {
      assert Backed(w, w.threads[u]);
    }
    forall i | 0 <= i < |after.log|
      ensures Recorded(after, after.log[i])
      ensures i < |w.log| ==> w.log[i].key != key
    {
      if i < |w.log| {
        assert Recorded(w, w.log[i]);
      }
    }
  }

  lemma LeaveKeepsProtocol(w: World, t: nat)
    requires Protocol(w) && t < |w.threads| && w.threads[t].pc.Finishing?
    ensures Protocol(AdvanceThread(w, t))
  {
    var (shared, event) := Leave(w.shared, w.threads[t].key);
    assert Backed(w, w.threads[t]);
    var moved := Place(w, t, Popped(event, w.threads[t].pc.result));
    PlaceKeepsProtocol(w, t, Popped(event, w.threads[t].pc.result));
    forall u | 0 <= u < |moved.threads| && Busy(moved.threads[u])
      ensures moved.threads[u].key in shared.loading
    {
      assert Backed(w, w.threads[u]);
    }
  }

  lemma AdvanceKeepsProtocol(w: World, t: nat)
    requires Protocol(w) && t < |w.threads|
    ensures Protocol(AdvanceThread(w, t))
  {
    var s, key := w.shared, w.threads[t].key;
    assert Backed(w, w.threads[t]);
    match w.threads[t].pc
    case Miss =>
      if key !in s.cache && key !in s.loading {
        BecomeLoaderKeepsProtocol(w, t);
      } else if key in s.cache {
        HandOverKeepsProtocol(w, t, s.cache[key]);
      } else {
        PlaceKeepsProtocol(w, t, MustWait);
      }
    case Loading(_) => LoadKeepsProtocol(w, t);
    case Finishing(_) => LeaveKeepsProtocol(w, t);
    case Popped(event, result) =>
      var signalled := s.(signalled := s.signalled + if event.Some? then {event.value} else {});
      forall u | 0 <= u < |w.threads| && Busy(w.threads[u])
        ensures w.threads[u].key in signalled.loading
      {
        assert Backed(w, w.threads[u]);
      }
      if result.Some? {
        HandOverKeepsProtocol(w.(shared := signalled), t, result.value);
      } else {
        PlaceKeepsProtocol(w.(shared := signalled), t, Raised);
      }
    case Start => PlaceKeepsProtocol(w, t, if key in s.cache then Hit else Miss);
    case MustWait => PlaceKeepsProtocol(w, t, if key in s.loading then Waiting(s.loading[key]) else Raised);
    case Waiting(_) => PlaceKeepsProtocol(w, t, Woken);
    case Hit | Woken =>
      if key in s.cache {
        HandOverKeepsProtocol(w, t, s.cache[key]);
      } else {
        PlaceKeepsProtocol(w, t, Raised);
      }
    case Returned(_) =>
    case Raised =>
  }

  lemma CallKeepsProtocol(w: World, key: Key)
    requires Protocol(w)
    ensures Protocol(Next(w, Call(key)))
  {
    var after := Next(w, Call(key));
    forall u | 0 <= u < |after.threads|
      ensures Backed(after, after.threads[u])
    {
      if u < |w.threads| {
        assert Backed(w, w.threads[u]);
      }
    }
    forall i | 0 <= i < |after.log|
      ensures Recorded(after, after.log[i])
    {
      assert Recorded(w, w.log[i]);
    }
  }

  lemma {:induction false} RunsKeepProtocol(w: World, steps: seq<Step>)
    requires Protocol(w) && Reset !in steps
    ensures Protocol(RunFrom(w, steps))
  {
    if steps != [] {
      var n := |steps| - 1;
      RunsKeepProtocol(w, steps[..n]);
      var before := RunFrom(w, steps[..n]);
      assert steps[n] in steps;
      match steps[n]
      case Call(key) => CallKeepsProtocol(before, key);
      case Advance(t) =>
        if t < |before.threads| {
          AdvanceKeepsProtocol(before, t);
        }
      case LoadFails(t) =>
      case Reset =>
    }
  }

  /** Between resets, in every interleaving: one loader per key, one successful load, one detector for all. */
  lemma SafeBetweenResets(steps: seq<Step>)
    requires Reset !in steps
    ensures Safe(RunFrom(Boot, steps))
  {
    RunsKeepProtocol(Boot, steps);
  }

  // ---------------------------------------------------------------------------------------------
  // When a reset is harmless
  // ---------------------------------------------------------------------------------------------

  /** A thread between winning the load and handing its detector over. */
  predicate MidLoad(th: Thread) {
    th.pc.Loading? || th.pc.Finishing? || (th.pc.Popped? && th.pc.result.Some?)
  }

  predicate Quiescent(w: World) { forall t | 0 <= t < |w.threads| :: !MidLoad(w.threads[t]) }

  ghost predicate SafeForever(w: World) {
    forall steps: seq<Step> | Reset !in steps :: Safe(RunFrom(w, steps))
  }

  lemma QuietResetIsSafe(w: World)
    requires Protocol(w) && Quiescent(w)
    ensures Protocol(Next(w, Reset)) && SafeForever(Next(w, Reset))
  {
    var after := Next(w, Reset);
    forall t | 0 <= t < |after.threads|
      ensures Backed(after, after.threads[t]) && !Busy(after.threads[t])
    {
      assert !MidLoad(w.threads[t]);
    }
    forall steps: seq<Step> | Reset !in steps
      ensures Safe(RunFrom(after, steps))
    {
      RunsKeepProtocol(after, steps);
    }
  }

  lemma {:induction false} RunInTwo(w: World, a: seq<Step>, b: seq<Step>)
    ensures RunFrom(w, a + b) == RunFrom(RunFrom(w, a), b)
  {
    if b == [] {
      assert a + b == a;
    } else {
      var n := |b| - 1;
      RunInTwo(w, a, b[..n]);
      assert (a + b)[..|a + b| - 1] == a + b[..n];
    }
  }

  lemma RunOne(w: World, step: Step)
    ensures RunFrom(w, [step]) == Next(w, step)
  {
    assert [step][..0] == [];
  }

  lemma RunTwo(w: World, a: Step, b: Step)
    ensures RunFrom(w, [a, b]) == Next(Next(w, a), b)
  {
    RunOne(w, a);
    assert [a, b][..1] == [a];
  }

  /** A new call that finds neither a detector nor a load in progress becomes a loader. */
  function NewLoaderSteps(w: World, key: Key): seq<Step> { [Call(key), Advance(|w.threads|)] + [Advance(|w.threads|)] }

  function WithNewLoader(w: World, key: Key): World {
    w.(threads := w.threads + [Thread(key, Loading(w.shared.issued))],
       shared := w.shared.(loading := w.shared.loading[key := w.shared.issued], issued := w.shared.issued + 1))
  }

  lemma NewLoader(w: World, key: Key)
    requires key !in w.shared.cache && key !in w.shared.loading
    ensures RunFrom(w, NewLoaderSteps(w, key)) == WithNewLoader(w, key)
  {
    var u := |w.threads|;
    RunInTwo(w, [Call(key), Advance(u)], [Advance(u)]);
    RunTwo(w, Call(key), Advance(u));
    var called := Next(w, Call(key));
    var missed := Next(called, Advance(u));
    assert missed.threads == w.threads + [Thread(key, Miss)];
    RunOne(missed, Advance(u));
    assert Next(missed, Advance(u)).threads == w.threads + [Thread(key, Loading(w.shared.issued))];
  }

  lemma TwoLoadersUnsafe(w: World, t: nat, u: nat)
    requires t < u < |w.threads| && w.threads[t].pc.Loading? && w.threads[u].pc.Loading?
    requires w.threads[t].key == w.threads[u].key
    ensures !Safe(w)
  {
  }

  /** A loader that was interrupted: the next caller loads the same detector at the same time. */
  lemma ResetWhileLoading(w: World, t: nat) returns (steps: seq<Step>)
    requires t < |w.threads| && w.threads[t].pc.Loading?
    ensures Reset !in steps && !Safe(RunFrom(Next(w, Reset), steps))
  {
    var after, key := Next(w, Reset), w.threads[t].key;
    steps := NewLoaderSteps(after, key);
    NewLoader(after, key);
    TwoLoadersUnsafe(WithNewLoader(after, key), t, |w.threads|);
  }

  /** A loader about to clean up: it takes away the registration of the next loader, and a third one starts. */
  lemma ResetWhileFinishing(w: World, t: nat) returns (steps: seq<Step>)
    requires t < |w.threads| && w.threads[t].pc.Finishing?
    ensures Reset !in steps && !Safe(RunFrom(Next(w, Reset), steps))
  {
    var after, key := Next(w, Reset), w.threads[t].key;
    var second := WithNewLoader(after, key);
    NewLoader(after, key);
    var popped := Next(second, Advance(t));
    RunOne(second, Advance(t));
    var third := WithNewLoader(popped, key);
    NewLoader(popped, key);
    var first := NewLoaderSteps(after, key) + [Advance(t)];
    RunInTwo(after, NewLoaderSteps(after, key), [Advance(t)]);
    steps := first + NewLoaderSteps(popped, key);
    RunInTwo(after, first, NewLoaderSteps(popped, key));
    assert third.threads[|w.threads|] == second.threads[|w.threads|];
    TwoLoadersUnsafe(third, |w.threads|, |w.threads| + 1);
  }

  /** A loader about to return: its caller gets the closed detector, the next caller a new one. */
  lemma ResetWhileReturning(w: World, t: nat) returns (steps: seq<Step>)
    requires Protocol(w) && t < |w.threads| && w.threads[t].pc.Popped? && w.threads[t].pc.result.Some?
    ensures Reset !in steps && !Safe(RunFrom(Next(w, Reset), steps))
  {
    var after, key, d := Next(w, Reset), w.threads[t].key, w.threads[t].pc.result.value;
    var u := |w.threads|;
    assert Backed(w, w.threads[t]) && d < w.built;
    var returned := Next(after, Advance(t));
    RunOne(after, Advance(t));
    assert returned.log == [ReturnedFact(key, d)];
    var second := WithNewLoader(returned, key);
    NewLoader(returned, key);
    var loaded := Next(second, Advance(u));
    RunOne(second, Advance(u));
    assert loaded.log == [ReturnedFact(key, d), LoadedFact(key, w.built)];
    var first := [Advance(t)] + NewLoaderSteps(returned, key);
    RunInTwo(after, [Advance(t)], NewLoaderSteps(returned, key));
    steps := first + [Advance(u)];
    RunInTwo(after, first, [Advance(u)]);
    assert loaded.log[0].detector != loaded.log[1].detector && loaded.log[0].key == loaded.log[1].key;
  }

  /**
    Exactly when `reset` keeps the promise for the calls that follow: when no thread is between winning a
    load and handing its detector over. Otherwise some interleaving breaks it.
   */
  lemma ResetHarmlessExactly(w: World)
    requires Protocol(w)
    ensures SafeForever(Next(w, Reset)) <==> Quiescent(w)
  {
    if Quiescent(w) {
      QuietResetIsSafe(w);
    } else {
      var t :| 0 <= t < |w.threads| && MidLoad(w.threads[t]);
      var steps: seq<Step>;
      if w.threads[t].pc.Loading? {
        steps := ResetWhileLoading(w, t);
      } else if w.threads[t].pc.Finishing? {
        steps := ResetWhileFinishing(w, t);
      } else {
        steps := ResetWhileReturning(w, t);
      }
      assert Reset !in steps && !Safe(RunFrom(Next(w, Reset), steps));
    }
  }

  // ---------------------------------------------------------------------------------------------
  // What becomes of a waiter
  // ---------------------------------------------------------------------------------------------

  /** The world before step `i` of a run. */
  function At(steps: seq<Step>, i: nat): World
    requires i <= |steps|
  {
    RunFrom(Boot, steps[..i])
  }

  lemma AtNext(steps: seq<Step>, i: nat)
    requires i < |steps|
    ensures At(steps, i + 1) == Next(At(steps, i), steps[i])
  {
    assert steps[..i + 1][..i] == steps[..i];
  }

  lemma AtKeepsProtocol(steps: seq<Step>, i: nat)
    requires Reset !in steps && i <= |steps|
    ensures Protocol(At(steps, i))
  {
    RunsKeepProtocol(Boot, steps[..i]);
  }

  /** Thread `t` takes the step. */
  predicate Acts(w: World, step: Step, t: nat) { step == Advance(t) && t < |w.threads| }

  /** The step is a loader's last locked section, which takes its registration away. */
  predicate Leaves(w: World, step: Step, key: Key) {
    step.Advance? && step.t < |w.threads| && w.threads[step.t].key == key && w.threads[step.t].pc.Finishing?
  }

  /** What the leaving loader made of its load. */
  function Made(w: World, step: Step, key: Key): Option<Detector>
    requires Leaves(w, step, key)
  {
    w.threads[step.t].pc.result
  }

  /** The step makes a thread the loader of the key. */
  predicate Registers(w: World, step: Step, key: Key) {
    && step.Advance? && step.t < |w.threads| && w.threads[step.t].key == key && w.threads[step.t].pc.Miss?
    && key !in w.shared.cache && key !in w.shared.loading
  }

  /** The step is the waiter's lookup of its event, outside the lock. */
  predicate LooksUp(steps: seq<Step>, j: nat, t: nat) {
    j < |steps| && Acts(At(steps, j), steps[j], t) && At(steps, j).threads[t].pc.MustWait?
  }

  /** The step is what the waiter does when it wakes. */
  predicate Wakes(steps: seq<Step>, k: nat, t: nat) {
    k < |steps| && Acts(At(steps, k), steps[k], t) && At(steps, k).threads[t].pc.Woken?
  }

  /** Step `x` is the leaving of a loader of the key, and nobody has registered between it and step `j`. */
  predicate LeftBefore(steps: seq<Step>, x: nat, j: nat, key: Key) {
    && x < j <= |steps| && Leaves(At(steps, x), steps[x], key)
    && forall y: nat | x < y < j :: !Registers(At(steps, y), steps[y], key)
  }

  lemma RegistrationMoves(w: World, step: Step, key: Key)
    requires step != Reset
    ensures key in Next(w, step).shared.loading <==>
            Registers(w, step, key) || (key in w.shared.loading && !Leaves(w, step, key))
    ensures !(Registers(w, step, key) && Leaves(w, step, key))
  {
  }

  /** A step leaves every thread its key, and moves no thread but the one that takes it. */
  lemma ThreadsMove(w: World, step: Step, t: nat)
    requires t < |w.threads|
    ensures var after := Next(w, step);
            && t < |after.threads| && after.threads[t].key == w.threads[t].key
            && (step != Advance(t) && !w.threads[t].pc.Loading? ==> after.threads[t].pc == w.threads[t].pc)
  {
  }

  /** What the last two steps of a waiter do. */
  lemma WaiterMoves(w: World, t: nat)
    requires t < |w.threads|
    ensures var pc, key, after := w.threads[t].pc, w.threads[t].key, Next(w, Advance(t)).threads[t].pc;
            && (pc.MustWait? ==> if key in w.shared.loading then after.Waiting? else after.Raised?)
            && (pc.Waiting? ==> after.Woken?)
            && (pc.Woken? ==> after == if key in w.shared.cache then Returned(w.shared.cache[key]) else Raised)
            && (pc.Returned? || pc.Raised? ==> after == pc)
  {
  }

  /** A key that was registered at `i` is not at `j` exactly when a loader left in between and no other came. */
  lemma {:induction false} UnregisteredExactly(steps: seq<Step>, i: nat, j: nat, key: Key)
    requires Reset !in steps && i <= j <= |steps| && key in At(steps, i).shared.loading
    ensures key !in At(steps, j).shared.loading <==> exists x: nat :: i <= x && LeftBefore(steps, x, j, key)
    decreases j
  {
    hide At, Next, LeftBefore, Leaves, Registers;
    forall x: nat
      ensures !LeftBefore(steps, x, x, key) && (x >= j ==> !LeftBefore(steps, x, j, key))
    {
      LeftNext(steps, x, j, key);
    }
    if i < j {
      UnregisteredExactly(steps, i, j - 1, key);
      AtNext(steps, j - 1);
      assert steps[j - 1] in steps;
      RegistrationMoves(At(steps, j - 1), steps[j - 1], key);
      LeftNext(steps, j - 1, j, key);
      if key in At(steps, j).shared.loading {
        forall x: nat | i <= x
          ensures !LeftBefore(steps, x, j, key)
        {
          LeftNext(steps, x, j, key);
        }
      } else if Leaves(At(steps, j - 1), steps[j - 1], key) {
        assert LeftBefore(steps, j - 1, j, key);
      } else {
        var x: nat :| i <= x && LeftBefore(steps, x, j - 1, key);
        LeftNext(steps, x, j - 1, key);
        LeftNext(steps, x, j, key);
      }
    }
  }

  lemma LeftNext(steps: seq<Step>, x: nat, j: nat, key: Key)
    requires j <= |steps|
    ensures !LeftBefore(steps, x, x, key)
    ensures if x >= j then !LeftBefore(steps, x, j, key)
            else LeftBefore(steps, x, j, key) <==>
                 if x == j - 1 then Leaves(At(steps, x), steps[x], key)
                 else LeftBefore(steps, x, j - 1, key) && !Registers(At(steps, j - 1), steps[j - 1], key)
  {
    hide At, Leaves, Registers;
  }

  /** Without a loader no step puts a detector of the key in the cache. */
  lemma CacheStays(w: World, step: Step, key: Key)
    requires Protocol(w) && step != Reset && key !in w.shared.loading
    ensures key in Next(w, step).shared.cache <==> key in w.shared.cache
  {
    if step.Advance? && step.t < |w.threads| {
      assert Backed(w, w.threads[step.t]);
    }
  }

  /** After a loader has left, and until another comes, the detector is there exactly when its load succeeded. */
  lemma {:induction false} LoadedExactly(steps: seq<Step>, x: nat, j: nat, key: Key)
    requires Reset !in steps && LeftBefore(steps, x, j, key)
    ensures key !in At(steps, j).shared.loading
    ensures key in At(steps, j).shared.cache <==> Made(At(steps, x), steps[x], key).Some?
    decreases j
  {
    hide *;
    LeftEarlier(steps, x, j, key);
    AtNext(steps, j - 1);
    AtKeepsProtocol(steps, j - 1);
    if x == j - 1 {
      LeaverLoaded(At(steps, x), steps[x], key);
    } else {
      LoadedExactly(steps, x, j - 1, key);
      StillUnregistered(At(steps, j - 1), steps[j - 1], key);
    }
  }

  lemma StillUnregistered(w: World, step: Step, key: Key)
    requires Protocol(w) && step != Reset && key !in w.shared.loading && !Registers(w, step, key)
    ensures key !in Next(w, step).shared.loading
    ensures key in Next(w, step).shared.cache <==> key in w.shared.cache
  {
    hide Next;
    RegistrationMoves(w, step, key);
    CacheStays(w, step, key);
  }

  lemma LeftEarlier(steps: seq<Step>, x: nat, j: nat, key: Key)
    requires Reset !in steps && LeftBefore(steps, x, j, key)
    ensures x < j <= |steps| && steps[j - 1] != Reset && Leaves(At(steps, x), steps[x], key)
    ensures x < j - 1 ==> LeftBefore(steps, x, j - 1, key) && !Registers(At(steps, j - 1), steps[j - 1], key)
  {
    hide At;
    assert steps[j - 1] in steps;
  }

  lemma LeaverLoaded(w: World, step: Step, key: Key)
    requires Protocol(w) && Leaves(w, step, key)
    ensures key !in Next(w, step).shared.loading
    ensures key in Next(w, step).shared.cache <==> Made(w, step, key).Some?
  {
    assert Backed(w, w.threads[step.t]);
  }

  /** In step `i` the first locked section tells the thread to wait: another one is loading. */
  predicate ToldToWait(steps: seq<Step>, i: nat, t: nat) {
    && i < |steps| && Acts(At(steps, i), steps[i], t)
    && var w, th := At(steps, i), At(steps, i).threads[t];
       th.pc.Miss? && th.key !in w.shared.cache && th.key in w.shared.loading
  }

  predicate Failed(w: World, t: nat) { t < |w.threads| && w.threads[t].pc.Raised? }

  /**
    The waiter looks its event up outside the lock. In every run without a reset a thread told to wait at step
    `i` fails at its lookup in step `j` exactly when a loader of its key has left in between and no other has
    come; and then the detector is there all the same exactly when that loader's load succeeded.
   */
  lemma WaiterFailsExactly(steps: seq<Step>, t: nat, i: nat, j: nat)
    requires Reset !in steps && i < j && ToldToWait(steps, i, t) && LooksUp(steps, j, t)
    ensures var key := At(steps, i).threads[t].key;
            && (Failed(At(steps, j + 1), t) <==> exists x: nat :: i <= x && LeftBefore(steps, x, j, key))
            && (forall x: nat | LeftBefore(steps, x, j, key) ::
                  key in At(steps, j).shared.cache <==> Made(At(steps, x), steps[x], key).Some?)
  {
    hide At, Next, Registers, Leaves, Made;
    var key := At(steps, i).threads[t].key;
    AtNext(steps, j);
    KeyStays(steps, t, i, j);
    WaiterMoves(At(steps, j), t);
    ThreadsMove(At(steps, j), steps[j], t);
    UnregisteredExactly(steps, i, j, key);
    forall x: nat | LeftBefore(steps, x, j, key)
      ensures key in At(steps, j).shared.cache <==> Made(At(steps, x), steps[x], key).Some?
    {
      LoadedExactly(steps, x, j, key);
    }
  }

  /** Threads stay, with the key they were called with. */
  lemma {:induction false} KeyStays(steps: seq<Step>, t: nat, i: nat, j: nat)
    requires i <= j <= |steps| && t < |At(steps, i).threads|
    ensures t < |At(steps, j).threads| && At(steps, j).threads[t].key == At(steps, i).threads[t].key
    decreases j
  {
    hide At, Next;
    if i < j {
      KeyStays(steps, t, i, j - 1);
      AtNext(steps, j - 1);
      ThreadsMove(At(steps, j - 1), steps[j - 1], t);
    }
  }

  /** Where a thread stands after its lookup at step `j`, before step `n`. */
  predicate Fate(steps: seq<Step>, t: nat, j: nat, n: nat)
    requires n <= |steps| && LooksUp(steps, j, t) && t < |At(steps, n).threads|
  {
    var key, pc := At(steps, j).threads[t].key, At(steps, n).threads[t].pc;
    if key !in At(steps, j).shared.loading then pc.Raised?
    else
      || pc.Waiting? || pc.Woken?
      || exists k: nat :: j < k < n && Wakes(steps, k, t)
           && pc == if key in At(steps, k).shared.cache then Returned(At(steps, k).shared.cache[key]) else Raised
  }

  lemma {:induction false} FateIs(steps: seq<Step>, t: nat, j: nat, n: nat)
    requires LooksUp(steps, j, t) && j < n <= |steps|
    ensures t < |At(steps, n).threads| && Fate(steps, t, j, n)
    decreases n
  {
    hide At, Next;
    AtNext(steps, n - 1);
    KeyStays(steps, t, j, n);
    KeyStays(steps, t, j, n - 1);
    if j < n - 1 {
      FateIs(steps, t, j, n - 1);
      FateMoves(steps, t, j, n - 1);
    } else {
      WaiterMoves(At(steps, j), t);
    }
  }

  lemma WokenWakes(steps: seq<Step>, n: nat, t: nat)
    requires n < |steps| && steps[n] == Advance(t) && t < |At(steps, n).threads| && At(steps, n).threads[t].pc.Woken?
    ensures Wakes(steps, n, t)
  {
  }

  lemma FateMoves(steps: seq<Step>, t: nat, j: nat, n: nat)
    requires LooksUp(steps, j, t) && j < n < |steps|
    requires t < |At(steps, n).threads| && Fate(steps, t, j, n)
    requires t < |At(steps, n + 1).threads| && At(steps, n + 1) == Next(At(steps, n), steps[n])
    requires At(steps, n).threads[t].key == At(steps, j).threads[t].key
    ensures Fate(steps, t, j, n + 1)
  {
    hide At, Next, Wakes;
    var w := At(steps, n);
    ThreadsMove(w, steps[n], t);
    WaiterMoves(w, t);
    if steps[n] == Advance(t) && w.threads[t].pc.Woken? {
      assert Wakes(steps, n, t) by {
        WokenWakes(steps, n, t);
      }
    }
  }

  lemma CachedStays(w: World, step: Step, key: Key)
    requires Protocol(w) && step != Reset && key in w.shared.cache
    ensures key in Next(w, step).shared.cache && Next(w, step).shared.cache[key] == w.shared.cache[key]
  {
    if step.Advance? && step.t < |w.threads| {
      assert Backed(w, w.threads[step.t]);
    }
  }

  /** Nobody replaces a cached detector. */
  lemma {:induction false} CacheKeeps(steps: seq<Step>, key: Key, k: nat, n: nat)
    requires Reset !in steps && k <= n <= |steps| && key in At(steps, k).shared.cache
    ensures key in At(steps, n).shared.cache && At(steps, n).shared.cache[key] == At(steps, k).shared.cache[key]
    decreases n
  {
    hide *;
    if k < n {
      CacheKeeps(steps, key, k, n - 1);
      AtNext(steps, n - 1);
      AtKeepsProtocol(steps, n - 1);
      assert steps[n - 1] in steps;
      CachedStays(At(steps, n - 1), steps[n - 1], key);
    }
  }

  /** What a woken waiter finds is what it ends with. */
  lemma {:induction false} WokenEnds(steps: seq<Step>, t: nat, k: nat, n: nat)
    requires Wakes(steps, k, t) && k < n <= |steps|
    ensures var w := At(steps, k);
            && t < |At(steps, n).threads|
            && At(steps, n).threads[t].pc == if w.threads[t].key in w.shared.cache
                                             then Returned(w.shared.cache[w.threads[t].key]) else Raised
    decreases n
  {
    hide At, Next;
    AtNext(steps, n - 1);
    if k < n - 1 {
      WokenEnds(steps, t, k, n - 1);
    }
    ThreadsMove(At(steps, n - 1), steps[n - 1], t);
    WaiterMoves(At(steps, n - 1), t);
  }

  /**
    A waiter that comes to an end returns exactly when its key was registered at its lookup and the detector
    was there when it woke, and then it returns the one detector of its key; otherwise it raises.
   */
  lemma WaiterReturnsExactly(steps: seq<Step>, t: nat, j: nat)
    requires Reset !in steps && LooksUp(steps, j, t) && t < |At(steps, |steps|).threads|
    requires At(steps, |steps|).threads[t].pc.Returned? || At(steps, |steps|).threads[t].pc.Raised?
    ensures var key, end := At(steps, j).threads[t].key, At(steps, |steps|);
            && (end.threads[t].pc.Returned? <==>
                  && key in At(steps, j).shared.loading
                  && exists k: nat :: j < k && Wakes(steps, k, t) && key in At(steps, k).shared.cache)
            && (end.threads[t].pc.Returned? ==>
                  key in end.shared.cache && end.threads[t].pc.detector == end.shared.cache[key])
  {
    var n, key := |steps|, At(steps, j).threads[t].key;
    FateIs(steps, t, j, n);
    hide At;
    forall k: nat | j < k && Wakes(steps, k, t)
      ensures At(steps, k).threads[t].key == key
      ensures At(steps, n).threads[t].pc
           == if key in At(steps, k).shared.cache then Returned(At(steps, k).shared.cache[key]) else Raised
      ensures key in At(steps, k).shared.cache ==>
                key in At(steps, n).shared.cache && At(steps, n).shared.cache[key] == At(steps, k).shared.cache[key]
    {
      KeyStays(steps, t, j, k);
      WokenEnds(steps, t, k, n);
      if key in At(steps, k).shared.cache {
        CacheKeeps(steps, key, k, n);
      }
    }
  }

  /** Such a world is reachable with the detector loaded: the first caller finishes between the two accesses. */
  lemma WaiterFailsAfterSuccess(key: Key) returns (steps: seq<Step>)
    ensures var w := RunFrom(Boot, steps);
            |w.threads| == 2 && w.threads[0] == Thread(key, Popped(Some(0), Some(0)))
            && w.threads[1] == Thread(key, MustWait) && key in w.shared.cache && key !in w.shared.loading
  {
    var w1 := WithNewLoader(Boot, key);
    NewLoader(Boot, key);
    var w3 := Next(Next(w1, Call(key)), Advance(1));
    RunTwo(w1, Call(key), Advance(1));
    assert w3.threads == [Thread(key, Loading(0)), Thread(key, Miss)];
    var w5 := Next(Next(w3, Advance(1)), Advance(0));
    RunTwo(w3, Advance(1), Advance(0));
    assert w5.threads == [Thread(key, Finishing(Some(0))), Thread(key, MustWait)];
    var w6 := Next(w5, Advance(0));
    RunOne(w5, Advance(0));
    assert w6.threads == [Thread(key, Popped(Some(0), Some(0))), Thread(key, MustWait)];
    var a, b, c := NewLoaderSteps(Boot, key), [Call(key), Advance(1)], [Advance(1), Advance(0)];
    RunInTwo(Boot, a, b);
    RunInTwo(Boot, a + b, c);
    RunInTwo(Boot, a + b + c, [Advance(0)]);
    steps := a + b + c + [Advance(0)];
  }
}
