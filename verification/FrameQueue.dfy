/**
  The one-slot queue between the capture thread and the processing thread of a stream. A step is what one
  thread does between two looks at the shared queue, so the run theorems hold of every interleaving.
  Frames are numbered as they are captured.
 */
module FrameQueue {
  import opened Wrappers

  datatype Producer =
    | Reading                            // waiting for the next frame
    | Checked(frame: nat, full: bool)    // has asked whether the queue is full
    | Emptied(frame: nat)                // has taken the old frame out
    | CountDropped                       // has put its frame in place of the old one; two counters to go
    | CountEnqueued                      // has put its frame; one counter to go

  datatype Consumer = Looking | Getting

  /** The last three fields keep the account of what became of each frame. */
  datatype State = State(
    slot: Option<nat>, producer: Producer, consumer: Consumer, captured: nat, enqueued: nat, dropped: nat,
    received: seq<nat>, replaced: seq<nat>, lost: seq<nat>)

  datatype Thread = Capture | Process

  /** A thread whose `put` or `get` would block takes no step. */
  predicate Blocked(st: State, thread: Thread) {
    match thread
    case Capture =>
      st.slot.Some? && (st.producer.Emptied? || (st.producer.Checked? && !st.producer.full))
    case Process => st.consumer.Getting? && st.slot.None?
  }

  function Next(st: State, thread: Thread): State {
    if Blocked(st, thread) then st
    else if thread == Process then
      if st.consumer.Looking? then (if st.slot.None? then st else st.(consumer := Getting))
      else if st.slot.None? then st
      else st.(slot := None, consumer := Looking, received := st.received + [st.slot.value])
    else
      match st.producer
      case Reading => st.(producer := Checked(st.captured, st.slot.Some?), captured := st.captured + 1)
      case Checked(f, full) =>
        if !full then st.(slot := Some(f), producer := CountEnqueued)
        else if st.slot.None? then st.(producer := Reading, lost := st.lost + [f])
        else st.(slot := None, producer := Emptied(f), replaced := st.replaced + [st.slot.value])
      case Emptied(f) => st.(slot := Some(f), producer := CountDropped)
      case CountDropped => st.(dropped := st.dropped + 1, producer := CountEnqueued)
      case CountEnqueued => st.(enqueued := st.enqueued + 1, producer := Reading)
  }

  function Initial(): State { State(None, Reading, Looking, 0, 0, 0, [], [], []) }

  function After(steps: seq<Thread>): State {
    if steps == [] then Initial() else Next(After(steps[..|steps| - 1]), steps[|steps| - 1])
  }

  /** The frame the capture thread holds. */
  function InHand(p: Producer): Option<nat> {
    if p.Checked? || p.Emptied? then Some(p.frame) else None
  }

  function One(b: bool): nat { if b then 1 else 0 }

  /** Nothing is out of order: received, then the slot, then the frame in hand. */
  predicate InOrder(st: State) {
    && (forall i, j | 0 <= i < j < |st.received| :: st.received[i] < st.received[j])
    && (forall i | 0 <= i < |st.received| :: st.received[i] < st.captured)
    && (st.slot.Some? ==> st.slot.value < st.captured && forall i | 0 <= i < |st.received| :: st.received[i] < st.slot.value)
    && (InHand(st.producer).Some? ==>
          && InHand(st.producer).value == st.captured - 1
          && (st.slot.Some? ==> st.slot.value < st.captured - 1)
          && forall i | 0 <= i < |st.received| :: st.received[i] < st.captured - 1)
  }

  /** Every captured frame is in exactly one place. */
  predicate Accounted(st: State) {
    && (forall f: nat | f < st.captured ::
          f in st.received || f in st.replaced || f in st.lost || st.slot == Some(f) || InHand(st.producer) == Some(f))
    && |st.received| + |st.replaced| + |st.lost| + One(st.slot.Some?) + One(InHand(st.producer).Some?) == st.captured
  }

  /** The counters of the program, up to the ones the capture thread is about to count. */
  predicate Counted(st: State) {
    && st.enqueued + One(st.producer.CountDropped? || st.producer.CountEnqueued?)
       == |st.received| + |st.replaced| + One(st.slot.Some?)
    && st.dropped + One(st.producer.Emptied? || st.producer.CountDropped?) == |st.replaced|
  }

  /** Where the slot must be empty. */
  predicate SlotFree(st: State) {
    && (st.producer.Emptied? || (st.producer.Checked? && !st.producer.full) ==> st.slot.None?)
    && (st.consumer.Getting? && st.slot.None? ==> st.producer.Emptied?)
  }

  predicate Sound(st: State) { InOrder(st) && Accounted(st) && Counted(st) && SlotFree(st) }

  lemma CaptureKeepsOrder(st: State)
    requires Sound(st)
    ensures InOrder(Next(st, Capture))
  {
    hide Accounted, Counted;
  }

  lemma ProcessKeepsOrder(st: State)
    requires Sound(st)
    ensures InOrder(Next(st, Process))
  {
    hide Accounted, Counted;
  }

  lemma NextKeepsAccount(st: State, thread: Thread)
    requires Sound(st)
    ensures Accounted(Next(st, thread))
  {
    var next := Next(st, thread);
    forall f: nat | f < next.captured
      ensures f in next.received || f in next.replaced || f in next.lost || next.slot == Some(f)
              || InHand(next.producer) == Some(f)
    {
      assert f < st.captured || InHand(next.producer) == Some(f);
    }
  }

  lemma NextKeepsCounts(st: State, thread: Thread)
    requires Sound(st)
    ensures Counted(Next(st, thread)) && SlotFree(Next(st, thread))
  {
  }

  lemma {:induction false} RunsAreSound(steps: seq<Thread>)
    ensures Sound(After(steps))
  {
    if steps != [] {
      var st, thread := After(steps[..|steps| - 1]), steps[|steps| - 1];
      RunsAreSound(steps[..|steps| - 1]);
      if thread == Capture {
        CaptureKeepsOrder(st);
      } else {
        ProcessKeepsOrder(st);
      }
      NextKeepsAccount(st, thread);
      NextKeepsCounts(st, thread);
    }
  }

  /** What the processing thread gets is in capture order, and each frame ends in exactly one place. */
  lemma FramesAreConserved(steps: seq<Thread>)
    ensures var st := After(steps);
            && (forall i, j | 0 <= i < j < |st.received| :: st.received[i] < st.received[j])
            && (forall f: nat | f < st.captured ::
                  f in st.received || f in st.replaced || f in st.lost || st.slot == Some(f) || InHand(st.producer) == Some(f))
            && |st.received| + |st.replaced| + |st.lost| + One(st.slot.Some?) + One(InHand(st.producer).Some?) == st.captured
            && (st.producer.Reading? ==>
                  && st.enqueued == |st.received| + st.dropped + One(st.slot.Some?)
                  && st.captured == st.enqueued + |st.lost|)
  {
    RunsAreSound(steps);
  }

  /** The capture thread never blocks, and the processing thread only while the capture thread swaps a frame. */
  lemma NeverStuck(steps: seq<Thread>)
    ensures !Blocked(After(steps), Capture)
    ensures Blocked(After(steps), Process) ==> !Blocked(Next(After(steps), Capture), Process)
  {
    RunsAreSound(steps);
  }

  /**
    A frame is lost, uncounted, exactly when the queue was full as the capture thread asked and the processing
    thread has emptied it since: the newest frame goes, though its place is free.
   */
  lemma LostExactly(steps: seq<Thread>)
    ensures var st, next := After(steps), Next(After(steps), Capture);
            && (next.lost != st.lost <==> st.producer.Checked? && st.producer.full && st.slot.None?)
            && (next.lost != st.lost ==>
                  && next.lost == st.lost + [st.captured - 1]
                  && next.enqueued == st.enqueued && next.dropped == st.dropped && next.slot.None?)
  {
    RunsAreSound(steps);
  }

  lemma AfterStep(steps: seq<Thread>, thread: Thread)
    ensures After(steps + [thread]) == Next(After(steps), thread)
  {
    assert (steps + [thread])[..|steps|] == steps;
  }

  /** Such runs exist: the second frame finds the queue full, the first one is taken, and the second one is gone. */
  lemma NewestFrameIsLost() returns (steps: seq<Thread>)
    ensures steps == [Capture, Capture, Capture, Capture, Process, Process, Capture]
    ensures var st := After(steps);
            st.received == [0] && st.lost == [1] && st.captured == 2 && st.slot.None? && st.enqueued == 1 && st.dropped == 0
  {
    hide After;
    assert After([]) == Initial() by {
      StartOfRun();
    }
    steps := [];
    AfterStep(steps, Capture);
    steps := steps + [Capture];
    assert After(steps) == Initial().(producer := Checked(0, false), captured := 1);
    AfterStep(steps, Capture);
    steps := steps + [Capture];
    AfterStep(steps, Capture);
    steps := steps + [Capture];
    assert After(steps) == State(Some(0), Reading, Looking, 1, 1, 0, [], [], []);
    AfterStep(steps, Capture);
    steps := steps + [Capture];
    AfterStep(steps, Process);
    steps := steps + [Process];
    AfterStep(steps, Process);
    steps := steps + [Process];
    assert After(steps) == State(None, Checked(1, true), Looking, 2, 1, 0, [0], [], []);
    AfterStep(steps, Capture);
    steps := steps + [Capture];
  }

  lemma StartOfRun()
    ensures After([]) == Initial()
  {
  }

  /** What the processing thread takes is the newest frame ever put. */
  lemma TakesNewest(steps: seq<Thread>, f: nat)
    requires After(steps).slot == Some(f)
    ensures forall g | g in After(steps).received || g in After(steps).replaced :: g < f
  {
    RunsAreSound(steps);
    ReplacedAreOlder(steps);
  }

  predicate ReplacedOlder(st: State) {
    forall i | 0 <= i < |st.replaced| ::
      && st.replaced[i] < st.captured
      && (InHand(st.producer).Some? ==> st.replaced[i] < st.captured - 1)
      && (st.slot.Some? ==> st.replaced[i] < st.slot.value)
  }

  lemma {:induction false} ReplacedAreOlder(steps: seq<Thread>)
    ensures ReplacedOlder(After(steps))
  {
    if steps != [] {
      ReplacedAreOlder(steps[..|steps| - 1]);
      RunsAreSound(steps[..|steps| - 1]);
    }
  }

  // ---------------------------------------------------------------------------------------------
  // Each thread undisturbed
  // ---------------------------------------------------------------------------------------------

  /** One frame of the capture thread alone: it is put in a free slot, or in place of the frame that waits. */
  lemma CaptureAlone(steps: seq<Thread>)
    requires After(steps).producer.Reading?
    ensures var st, f := After(steps), After(steps).captured;
            var checked := Next(Next(st, Capture), Capture);
            if st.slot.None?
            then Next(checked, Capture) == st.(slot := Some(f), captured := f + 1, enqueued := st.enqueued + 1)
            else Next(Next(Next(checked, Capture), Capture), Capture)
                 == st.(slot := Some(f), captured := f + 1, enqueued := st.enqueued + 1, dropped := st.dropped + 1,
                        replaced := st.replaced + [st.slot.value])
  {
    hide After;
  }

  /** The processing thread alone: it takes the frame that waits, and goes on looking where none does. */
  lemma ProcessAlone(steps: seq<Thread>)
    requires After(steps).consumer.Looking?
    ensures var st := After(steps);
            if st.slot.None? then Next(st, Process) == st
            else Next(Next(st, Process), Process) == st.(slot := None, received := st.received + [st.slot.value])
  {
    hide After;
  }
}
