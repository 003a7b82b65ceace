/**
  Motion confirmation outside the event loop: a semaphore, one thread per request, and a deadline. A step is
  what happens between two awaits, so a run is any interleaving of requests, threads and deadlines.
 */
module ConfirmMotion {
  import opened Wrappers

  type Id = nat

  /** `confirmed`: `None` means "don't know", and the camera records. */
  datatype Verdict = Verdict(confirmed: Option<bool>)

  datatype Outcome = Returned(verdict: Verdict) | Raised

  /** Requests by phase; `busy` are the threads still working, `ended` what the others came to. */
  datatype State = State(
    permits: nat, running: set<Id>, overdue: set<Id>, busy: set<Id>,
    ended: map<Id, Outcome>, answers: map<Id, Verdict>)

  datatype Step =
    | Acquire(id: Id)                       // gets a permit and starts its thread
    | Finish(id: Id, outcome: Outcome)      // the thread comes to its end
    | Expire(id: Id)                        // the deadline passes before the request sees the end
    | Answer(id: Id)                        // the awaiting request sees the end, releases and answers

  predicate Known(st: State, id: Id) { id in st.running || id in st.overdue || id in st.answers }

  /** An impossible step changes nothing. */
  predicate Possible(st: State, step: Step) {
    match step
    case Acquire(id) => st.permits > 0 && !Known(st, id) && id !in st.busy && id !in st.ended
    case Finish(id, _) => id in st.busy
    case Expire(id) => id in st.running
    case Answer(id) => (id in st.running || id in st.overdue) && id in st.ended
  }

  const FAILSAFE := Verdict(None)

  /** What a request answers: the verdict in time, the failsafe after an error or the deadline. */
  function Answered(outcome: Outcome, late: bool): Verdict {
    if late || outcome.Raised? then FAILSAFE else outcome.verdict
  }

  function Next(st: State, step: Step): State {
    if !Possible(st, step) then st
    else
      match step
      case Acquire(id) => st.(permits := st.permits - 1, running := st.running + {id}, busy := st.busy + {id})
      case Finish(id, outcome) => st.(busy := st.busy - {id}, ended := st.ended[id := outcome])
      case Expire(id) => st.(running := st.running - {id}, overdue := st.overdue + {id})
      case Answer(id) =>
        st.(permits := st.permits + 1, running := st.running - {id}, overdue := st.overdue - {id},
            answers := st.answers[id := Answered(st.ended[id], id in st.overdue)])
  }

  /** `max(1, concurrency)` permits. */
  function Initial(concurrency: int): State {
    State(if concurrency < 1 then 1 else concurrency, {}, {}, {}, map[], map[])
  }

  function After(concurrency: int, steps: seq<Step>): State {
    if steps == [] then Initial(concurrency)
    else Next(After(concurrency, steps[..|steps| - 1]), steps[|steps| - 1])
  }

  /** Every request is running, overdue or answered, its thread working or ended, and answers come last. */
  predicate Placed(st: State) {
    && st.running !! st.overdue && st.busy !! st.ended.Keys
    && (forall id | id in st.running + st.overdue + st.answers.Keys :: id in st.busy || id in st.ended)
    && (forall id | id in st.busy + st.ended.Keys :: id in st.running || id in st.overdue || id in st.answers)
    && (forall id | id in st.answers :: id !in st.running && id !in st.overdue && id !in st.busy)
  }

  predicate Conserved(st: State, concurrency: int) {
    st.permits + |st.running| + |st.overdue| == Initial(concurrency).permits
  }

  predicate Sound(st: State, concurrency: int) { Placed(st) && Conserved(st, concurrency) }

  lemma NextKeepsPlaces(st: State, step: Step)
    requires Placed(st)
    ensures Placed(Next(st, step))
  {
  }

  lemma NextConserves(st: State, step: Step, concurrency: int)
    requires Placed(st) && Conserved(st, concurrency)
    ensures Conserved(Next(st, step), concurrency)
  {
    assert st.running !! st.overdue;
    hide Placed;
  }

  lemma {:induction false} RunsAreSound(concurrency: int, steps: seq<Step>)
    ensures Sound(After(concurrency, steps), concurrency)
  {
    if steps != [] {
      RunsAreSound(concurrency, steps[..|steps| - 1]);
      NextKeepsPlaces(After(concurrency, steps[..|steps| - 1]), steps[|steps| - 1]);
      NextConserves(After(concurrency, steps[..|steps| - 1]), steps[|steps| - 1], concurrency);
    }
  }

  /**
    At most as many threads work at once as there are permits, overdue ones included, and every permit is
    either free or held by one request that has not answered.
   */
  lemma ThreadsWithinCapacity(concurrency: int, steps: seq<Step>)
    ensures var st, capacity := After(concurrency, steps), if concurrency < 1 then 1 else concurrency;
            && |st.busy| <= capacity
            && st.permits + |st.running + st.overdue| == capacity
            && st.busy <= st.running + st.overdue
  {
    var st := After(concurrency, steps);
    RunsAreSound(concurrency, steps);
    assert |st.running + st.overdue| == |st.running| + |st.overdue|;
    SubsetIsSmaller(st.busy, st.running + st.overdue);
  }

  /** Whether the deadline of the request passed before it saw the end of its thread. */
  predicate Expired(concurrency: int, steps: seq<Step>, id: Id) {
    exists i :: 0 <= i < |steps| && steps[i] == Expire(id) && Possible(After(concurrency, steps[..i]), steps[i])
  }

  lemma ExpiredNext(concurrency: int, steps: seq<Step>, id: Id)
    requires steps != []
    ensures var n := |steps| - 1;
            Expired(concurrency, steps, id) <==>
            Expired(concurrency, steps[..n], id)
            || (steps[n] == Expire(id) && Possible(After(concurrency, steps[..n]), steps[n]))
  {
    var n := |steps| - 1;
    hide Possible, After;
    forall i | 0 <= i < n
      ensures steps[..n][i] == steps[i] && steps[..n][..i] == steps[..i]
    {
    }
    if Expired(concurrency, steps[..n], id) {
      var i :| 0 <= i < n && steps[..n][i] == Expire(id) && Possible(After(concurrency, steps[..n][..i]), steps[..n][i]);
      assert steps[i] == Expire(id) && Possible(After(concurrency, steps[..i]), steps[i]);
    }
  }

  /** What each request answers follows from its thread and its deadline. */
  predicate Truthful(st: State, expired: bool, id: Id) {
    && (id in st.answers ==> id in st.ended && st.answers[id] == Answered(st.ended[id], expired))
    && (id in st.overdue ==> expired)
    && (expired ==> id in st.overdue || id in st.answers)
  }

  lemma {:induction false} AnswersAreTruthful(concurrency: int, steps: seq<Step>, id: Id)
    ensures Truthful(After(concurrency, steps), Expired(concurrency, steps, id), id)
  {
    hide Truthful;
    if steps == [] {
      NothingYet(concurrency, id);
    } else {
      var n := |steps| - 1;
      AnswersAreTruthful(concurrency, steps[..n], id);
      RunsAreSound(concurrency, steps[..n]);
      ExpiredNext(concurrency, steps, id);
      TruthNext(After(concurrency, steps[..n]), steps[n], Expired(concurrency, steps[..n], id), id);
    }
  }

  lemma NothingYet(concurrency: int, id: Id)
    ensures Truthful(Initial(concurrency), Expired(concurrency, [], id), id)
  {
  }

  lemma TruthNext(st: State, step: Step, expired: bool, id: Id)
    requires Placed(st) && Truthful(st, expired, id)
    ensures Truthful(Next(st, step), expired || (step == Expire(id) && Possible(st, step)), id)
  {
    assert id in st.answers ==> id !in st.running && id !in st.overdue && id !in st.busy;
    hide Placed;
  }

  /**
    A recording is suppressed exactly when the call itself came back with "no object" and was seen before its deadline.
    And no request answers before its thread has ended, however long after the deadline that is.
   */
  lemma SuppressedExactly(concurrency: int, steps: seq<Step>, id: Id)
    requires id in After(concurrency, steps).answers
    ensures var st := After(concurrency, steps);
            && id in st.ended && id !in st.busy
            && (st.answers[id].confirmed == Some(false) <==>
                st.ended[id] == Returned(Verdict(Some(false))) && !Expired(concurrency, steps, id))
  {
    AnswersAreTruthful(concurrency, steps, id);
    RunsAreSound(concurrency, steps);
    hide Expired, After;
  }

  /** An overdue request keeps its permit until its thread has ended: the deadline alone frees no place. */
  lemma DeadlineFreesNothing(concurrency: int, steps: seq<Step>, id: Id)
    requires Possible(After(concurrency, steps), Expire(id))
    ensures var st := After(concurrency, steps + [Expire(id)]);
            && st.permits == After(concurrency, steps).permits && id in st.overdue
            && (Possible(st, Answer(id)) <==> id !in st.busy)
  {
    assert (steps + [Expire(id)])[..|steps|] == steps;
    RunsAreSound(concurrency, steps);
  }

  /**
    A request that is served: with a permit free it gets one, and once its thread has ended it gives it back and answers
    the verdict of the call, or "don't know" where the call raised.
   */
  lemma RequestIsServed(concurrency: int, steps: seq<Step>, id: Id, outcome: Outcome)
    requires var st := After(concurrency, steps); st.permits > 0 && id !in st.running && id !in st.overdue && id !in st.answers
    ensures var st := After(concurrency, steps);
            var started := Next(st, Acquire(id));
            var answered := Next(Next(started, Finish(id, outcome)), Answer(id));
            && started.permits == st.permits - 1 && id in started.busy && id in started.running
            && answered.permits == st.permits
            && answered.answers == st.answers[id := if outcome.Raised? then Verdict(None) else outcome.verdict]
  {
    RunsAreSound(concurrency, steps);
    hide After, Next;
    Begins(After(concurrency, steps), id);
    Completes(Next(After(concurrency, steps), Acquire(id)), id, outcome);
  }

  /** The same with the deadline in between, before or after the thread has ended: the answer is "don't know". */
  lemma LateRequestIsServed(concurrency: int, steps: seq<Step>, id: Id, outcome: Outcome, expireFirst: bool)
    requires var st := After(concurrency, steps); st.permits > 0 && id !in st.running && id !in st.overdue && id !in st.answers
    ensures var st := After(concurrency, steps);
            var started, end := Next(st, Acquire(id)), Finish(id, outcome);
            var ended := if expireFirst then Next(Next(started, Expire(id)), end) else Next(Next(started, end), Expire(id));
            var answered := Next(ended, Answer(id));
            answered.permits == st.permits && answered.answers == st.answers[id := Verdict(None)]
  {
    RunsAreSound(concurrency, steps);
    hide After, Next;
    var started := Next(After(concurrency, steps), Acquire(id));
    Begins(After(concurrency, steps), id);
    if expireFirst {
      ExpiresWorking(started, id, outcome);
    } else {
      ExpiresEnded(started, id, outcome);
    }
  }

  lemma Begins(st: State, id: Id)
    requires Placed(st) && st.permits > 0 && id !in st.running && id !in st.overdue && id !in st.answers
    ensures Next(st, Acquire(id)) == st.(permits := st.permits - 1, running := st.running + {id}, busy := st.busy + {id})
    ensures id !in st.busy && id !in st.ended
  {
    assert id !in st.busy + st.ended.Keys;
  }

  lemma Completes(st: State, id: Id, outcome: Outcome)
    requires id in st.running && id !in st.overdue && id in st.busy
    ensures var answered := Next(Next(st, Finish(id, outcome)), Answer(id));
            && answered.permits == st.permits + 1
            && answered.answers == st.answers[id := if outcome.Raised? then Verdict(None) else outcome.verdict]
  {
    var ended := Next(st, Finish(id, outcome));
    assert ended == st.(busy := st.busy - {id}, ended := st.ended[id := outcome]);
  }

  lemma ExpiresWorking(st: State, id: Id, outcome: Outcome)
    requires id in st.running && id in st.busy
    ensures var answered := Next(Next(Next(st, Expire(id)), Finish(id, outcome)), Answer(id));
            answered.permits == st.permits + 1 && answered.answers == st.answers[id := Verdict(None)]
  {
    var late := Next(st, Expire(id));
    assert late == st.(running := st.running - {id}, overdue := st.overdue + {id});
    var ended := Next(late, Finish(id, outcome));
    assert ended == late.(busy := st.busy - {id}, ended := st.ended[id := outcome]);
  }

  lemma ExpiresEnded(st: State, id: Id, outcome: Outcome)
    requires id in st.running && id in st.busy
    ensures var answered := Next(Next(Next(st, Finish(id, outcome)), Expire(id)), Answer(id));
            answered.permits == st.permits + 1 && answered.answers == st.answers[id := Verdict(None)]
  {
    var ended := Next(st, Finish(id, outcome));
    assert ended == st.(busy := st.busy - {id}, ended := st.ended[id := outcome]);
    var late := Next(ended, Expire(id));
    assert late == ended.(running := st.running - {id}, overdue := st.overdue + {id});
  }

  // ---------------------------------------------------------------------------------------------
  // The blocking call
  // ---------------------------------------------------------------------------------------------

  /** `capture_and_detect`: `tries` says which of up to five reads gave a frame, `objects` the labels found, if it works. */
  function CaptureAndDetect(tries: seq<bool>, objects: Option<seq<string>>, accept: set<string>): Verdict {
    if !(true in tries) || objects.None? then FAILSAFE
    else Verdict(Some(exists name :: name in objects.value && (accept == {} || name in accept)))
  }

  /** "No object" is said only of a frame that was read, on which the detector worked and found nothing accepted. */
  lemma NoObjectExactly(tries: seq<bool>, objects: Option<seq<string>>, accept: set<string>)
    ensures CaptureAndDetect(tries, objects, accept).confirmed == Some(false) <==>
            true in tries && objects.Some?
            && if accept == {} then objects.value == [] else forall name | name in accept :: name !in objects.value
  {
    if objects.Some? && objects.value != [] {
      assert objects.value[0] in objects.value;
    }
  }
}
