/**
  `CaptureRateGuard`: one observation per consumed frame; an impossible rate is denounced when it has
  lasted, and not more often than the cooldown. `Observed` is the program's step; the run theorems say
  what a whole history of observations makes it do.
 */
module CaptureRateGuard {
  import opened Numbers
  import opened Wrappers

  /** The limits, as the constructor leaves them. */
  datatype Settings = Settings(
    margin: real, sustain: real, window: real, cooldown: real, minSamples: int, maxSamples: int)

  predicate ValidSettings(s: Settings) {
    && s.margin >= 1.0 && s.sustain >= 1.0 && s.window >= 1.0 && s.cooldown >= 1.0
    && 2 <= s.minSamples <= s.maxSamples
  }

  datatype State = State(
    expectedFps: real,
    samples: seq<real>,
    abnormalSince: Option<real>,
    lastReportAt: Option<real>,
    reports: nat,
    lastObservedFps: real)

  datatype Event = Event(observedFps: real, expectedFps: real, thresholdFps: real, sustained: real, occurrences: nat)

  const MAX_PLAUSIBLE_FPS := 1000.0

  /** `deque(maxlen=n).append`. */
  function Push(samples: seq<real>, moment: real, maxSamples: int): seq<real> {
    if |samples| >= maxSamples && samples != [] then samples[1..] + [moment] else samples + [moment]
  }

  function Pruned(samples: seq<real>, cutoff: real): seq<real> {
    if samples != [] && samples[0] < cutoff then Pruned(samples[1..], cutoff) else samples
  }

  function ObservedFps(samples: seq<real>, minSamples: int): real {
    if |samples| < minSamples || samples == [] then 0.0
    else
      var span := samples[|samples| - 1] - samples[0];
      if span <= 0.0 then 0.0 else (|samples| - 1) as real / span
  }

  function Threshold(s: Settings, expectedFps: real): real { expectedFps + s.margin }

  /** One `observe` at a finite time. */
  function Observed(s: Settings, st: State, moment: real): (State, Option<Event>) {
    var samples := Pruned(Push(st.samples, moment, s.maxSamples), moment - s.window);
    var rate := ObservedFps(samples, s.minSamples);
    var noted := st.(samples := samples, lastObservedFps := rate);
    var threshold := Threshold(s, st.expectedFps);
    if rate <= 0.0 || rate < threshold then (noted.(abnormalSince := None), None)
    else if st.abnormalSince.None? then (noted.(abnormalSince := Some(moment)), None)
    else
      var sustained := moment - st.abnormalSince.value;
      if sustained < s.sustain then (noted, None)
      else if st.lastReportAt.Some? && moment - st.lastReportAt.value < s.cooldown then (noted, None)
      else
        (noted.(lastReportAt := Some(moment), reports := st.reports + 1),
         Some(Event(rate, st.expectedFps, threshold, sustained, st.reports + 1)))
  }

  class Guard {
    const settings: Settings
    var expectedFps: real
    var samples: seq<real>
    var abnormalSince: Option<real>
    var lastReportAt: Option<real>
    var reports: nat
    var lastObservedFps: real

    function View(): State
      reads this
    {
      State(expectedFps, samples, abnormalSince, lastReportAt, reports, lastObservedFps)
    }

    /** A parameter is `None` when it is absent, zero, or not a finite number. */
    constructor (expected: Option<real>, margin: Option<real>, sustain: Option<real>, window: Option<real>,
                 cooldown: Option<real>, minSamples: Option<int>, maxSamples: Option<int>, fallback: Option<real>)
      ensures ValidSettings(settings)
      ensures settings.margin == MaxR(1.0, if margin.Some? then margin.value else 10.0)
      ensures settings.sustain == MaxR(1.0, if sustain.Some? then sustain.value else 30.0)
      ensures settings.window == MaxR(1.0, if window.Some? then window.value else 5.0)
      ensures settings.cooldown == MaxR(1.0, if cooldown.Some? then cooldown.value else 300.0)
      ensures settings.minSamples == Max(2, if minSamples.Some? then minSamples.value else 12)
      ensures settings.maxSamples == Max(settings.minSamples, if maxSamples.Some? then maxSamples.value else 1024)
      ensures expectedFps == (if expected.Some? && 0.0 < expected.value <= 1000.0 then expected.value
                              else MaxR(1.0, if fallback.Some? then fallback.value else 30.0))
      ensures View() == State(expectedFps, [], None, None, 0, 0.0)
    {
      var min := Max(2, if minSamples.Some? then minSamples.value else 12);
      settings := Settings(
        MaxR(1.0, if margin.Some? then margin.value else 10.0),
        MaxR(1.0, if sustain.Some? then sustain.value else 30.0),
        MaxR(1.0, if window.Some? then window.value else 5.0),
        MaxR(1.0, if cooldown.Some? then cooldown.value else 300.0),
        min,
        Max(min, if maxSamples.Some? then maxSamples.value else 1024));
      expectedFps := MaxR(1.0, if fallback.Some? then fallback.value else 30.0);
      samples, abnormalSince, lastReportAt, reports, lastObservedFps := [], None, None, 0, 0.0;
      new;
      SetExpectedFps(expected);
    }

    method SetExpectedFps(fps: Option<real>)
      modifies this`expectedFps
      ensures expectedFps == if fps.Some? && 0.0 < fps.value <= 1000.0 then fps.value else old(expectedFps)
    {
      if fps.None? || fps.value <= 0.0 || fps.value > MAX_PLAUSIBLE_FPS {
        return;
      }
      expectedFps := fps.value;
    }

    /** `None` is a clock reading that is not a finite number. */
    method Observe(now: Option<real>) returns (event: Option<Event>)
      modifies this
      ensures now.None? ==> event == None && View() == old(View())
      ensures now.Some? ==> (View(), event) == Observed(settings, old(View()), now.value)
    {
      if now.None? {
        return None;
      }
      var moment := now.value;
      samples := Push(samples, moment, settings.maxSamples);
      var cutoff := moment - settings.window;
      ghost var pushed := samples;
      while samples != [] && samples[0] < cutoff
        invariant View() == old(View()).(samples := samples)
        invariant Pruned(samples, cutoff) == Pruned(pushed, cutoff)
        decreases |samples|
      {
        samples := samples[1..];
      }
      var rate := ObservedFps(samples, settings.minSamples);
      lastObservedFps := rate;
      var threshold := Threshold(settings, expectedFps);
      if rate <= 0.0 || rate < threshold {
        abnormalSince := None;
        return None;
      }
      if abnormalSince.None? {
        abnormalSince := Some(moment);
        return None;
      }
      var sustained := moment - abnormalSince.value;
      if sustained < settings.sustain {
        return None;
      }
      if lastReportAt.Some? && moment - lastReportAt.value < settings.cooldown {
        return None;
      }
      lastReportAt := Some(moment);
      reports := reports + 1;
      return Some(Event(rate, expectedFps, threshold, sustained, reports));
    }

    /** The suggested brake, per frame, while the anomaly lasts. */
    method SuggestedSleepSeconds() returns (seconds: real)
      requires settings.margin >= 1.0 && expectedFps > 0.0
      ensures abnormalSince.None? ==> seconds == 0.0
      ensures abnormalSince.Some? ==> seconds * (expectedFps + settings.margin) == 1.0
    {
      if abnormalSince.None? {
        return 0.0;
      }
      return 1.0 / MaxR(1.0, Threshold(settings, expectedFps));
    }
  }

  // ---------------------------------------------------------------------------------------------
  // Histories
  // ---------------------------------------------------------------------------------------------

  /** One consumed frame: when, and the frame rate the source was known to declare then. */
  datatype Frame = Frame(at: real, expectedFps: real)

  predicate Ordered(frames: seq<Frame>) {
    forall i, j | 0 <= i < j < |frames| :: frames[i].at <= frames[j].at
  }

  function Initial(): State { State(30.0, [], None, None, 0, 0.0) }

  /** The state after the first `k` frames. */
  function After(s: Settings, frames: seq<Frame>, k: nat): State
    requires k <= |frames|
  {
    if k == 0 then Initial()
    else Observed(s, After(s, frames, k - 1).(expectedFps := frames[k - 1].expectedFps), frames[k - 1].at).0
  }

  /** Whether frame `k` raised the alarm. */
  predicate Reports(s: Settings, frames: seq<Frame>, k: nat)
    requires k < |frames|
  {
    Observed(s, After(s, frames, k).(expectedFps := frames[k].expectedFps), frames[k].at).1.Some?
  }

  // ---------------------------------------------------------------------------------------------
  // The samples are a sliding window
  // ---------------------------------------------------------------------------------------------

  /** Frame `i` still counts at frame `k`: one of the last `maxSamples`, and within the window. */
  predicate Counts(s: Settings, frames: seq<Frame>, i: nat, k: nat)
    requires i <= k < |frames|
  {
    k - i < s.maxSamples && frames[i].at >= frames[k].at - s.window
  }

  function Times(frames: seq<Frame>, from: nat, end: nat): (r: seq<real>)
    requires from <= end <= |frames|
  {
    seq(end - from, p requires 0 <= p < end - from => frames[from + p].at)
  }

  /** The first frame that still counts at frame `k`, looking from `i` on. */
  function WindowStart(s: Settings, frames: seq<Frame>, k: nat, i: nat): (j: nat)
    requires i <= k < |frames|
    ensures i <= j <= k
    decreases k - i
  {
    if i < k && !Counts(s, frames, i, k) then WindowStart(s, frames, k, i + 1) else i
  }

  /** The frames that count are the latest ones, and frame `k` is one of them. */
  lemma {:induction false} CountingIsSuffix(s: Settings, frames: seq<Frame>, k: nat, i: nat, m: nat)
    requires ValidSettings(s) && Ordered(frames) && i <= m <= k < |frames|
    ensures Counts(s, frames, m, k) <==> m >= WindowStart(s, frames, k, i)
    decreases k - i
  {
    if i < k && !Counts(s, frames, i, k) && i < m {
      CountingIsSuffix(s, frames, k, i + 1, m);
    }
  }

  lemma {:induction false} PrunedTimes(s: Settings, frames: seq<Frame>, from: nat, k: nat)
    requires ValidSettings(s) && Ordered(frames) && from <= k < |frames| && k - from < s.maxSamples
    ensures Pruned(Times(frames, from, k + 1), frames[k].at - s.window)
         == Times(frames, WindowStart(s, frames, k, from), k + 1)
    decreases k - from
  {
    assert Times(frames, from, k + 1)[0] == frames[from].at;
    if from < k && frames[from].at < frames[k].at - s.window {
      assert Times(frames, from, k + 1)[1..] == Times(frames, from + 1, k + 1);
      PrunedTimes(s, frames, from + 1, k);
    }
  }

  /** Frames that no longer counted one frame ago do not count now, so the scan may start later. */
  lemma {:induction false} WindowStartSkips(s: Settings, frames: seq<Frame>, k: nat, i: nat, m: nat)
    requires i <= m <= k < |frames|
    requires forall u: nat | i <= u < m :: !Counts(s, frames, u, k)
    ensures WindowStart(s, frames, k, i) == WindowStart(s, frames, k, m)
    decreases m - i
  {
    if i < m {
      WindowStartSkips(s, frames, k, i + 1, m);
    }
  }

  /** Appending a frame to the times of frames `previous` on: the ceiling drops at most the first of them. */
  lemma PushTimes(s: Settings, frames: seq<Frame>, k: nat, previous: nat)
    requires ValidSettings(s) && 0 < k < |frames| && previous < k && k - previous <= s.maxSamples
    ensures Push(Times(frames, previous, k), frames[k].at, s.maxSamples)
         == Times(frames, if k - previous >= s.maxSamples then previous + 1 else previous, k + 1)
  {
    var from := if k - previous >= s.maxSamples then previous + 1 else previous;
    assert Push(Times(frames, previous, k), frames[k].at, s.maxSamples) == Times(frames, from, k) + [frames[k].at];
  }

  /** If the samples held what counted one frame ago, one observation makes them hold what counts now. */
  lemma WindowSlides(s: Settings, frames: seq<Frame>, k: nat)
    requires ValidSettings(s) && Ordered(frames) && 0 < k < |frames|
    ensures Pruned(Push(Times(frames, WindowStart(s, frames, k - 1, 0), k), frames[k].at, s.maxSamples),
                   frames[k].at - s.window)
         == Times(frames, WindowStart(s, frames, k, 0), k + 1)
  {
    hide Push, Pruned, Times, WindowStart;
    var previous := WindowStart(s, frames, k - 1, 0);
    CountingIsSuffix(s, frames, k - 1, 0, previous);
    var from := if k - previous >= s.maxSamples then previous + 1 else previous;
    PushTimes(s, frames, k, previous);
    forall u: nat | u < from
      ensures !Counts(s, frames, u, k)
    {
      if u < previous {
        CountingIsSuffix(s, frames, k - 1, 0, u);
      }
    }
    WindowStartSkips(s, frames, k, 0, from);
    PrunedTimes(s, frames, from, k);
  }

  /** One observation appends the time and prunes. */
  lemma SamplesStep(s: Settings, frames: seq<Frame>, k: nat)
    requires k < |frames|
    ensures After(s, frames, k + 1).samples
         == Pruned(Push(After(s, frames, k).samples, frames[k].at, s.maxSamples), frames[k].at - s.window)
  {
    hide Pruned, Push, ObservedFps;
  }

  /** The samples after frame `k` are the times of exactly the frames that count. */
  lemma {:induction false} SamplesAreWindow(s: Settings, frames: seq<Frame>, k: nat)
    requires ValidSettings(s) && Ordered(frames) && k < |frames|
    ensures After(s, frames, k + 1).samples == Times(frames, WindowStart(s, frames, k, 0), k + 1)
  {
    hide Observed, Pruned, WindowStart, Counts;
    SamplesStep(s, frames, k);
    if k == 0 {
      assert Push([], frames[0].at, s.maxSamples) == Times(frames, 0, 1);
      PrunedTimes(s, frames, 0, 0);
    } else {
      SamplesAreWindow(s, frames, k - 1);
      WindowSlides(s, frames, k);
    }
  }

  /** Stored samples always lie in the window and within the ceiling, and the newest frame is one of them. */
  lemma SamplesBounded(s: Settings, frames: seq<Frame>, k: nat, p: nat)
    requires ValidSettings(s) && Ordered(frames) && k < |frames| && p < |After(s, frames, k + 1).samples|
    ensures var samples := After(s, frames, k + 1).samples;
            && 1 <= |samples| <= s.maxSamples
            && frames[k].at - s.window <= samples[p] <= frames[k].at
            && samples[|samples| - 1] == frames[k].at
  {
    SamplesAreWindow(s, frames, k);
    var j := WindowStart(s, frames, k, 0);
    CountingIsSuffix(s, frames, k, 0, j);
    CountingIsSuffix(s, frames, k, 0, j + p);
  }

  // ---------------------------------------------------------------------------------------------
  // When the alarm is raised
  // ---------------------------------------------------------------------------------------------

  /** The windowed rate at frame `k`, from the times alone. */
  function RateFrom(s: Settings, frames: seq<Frame>, j: nat, k: nat): real
    requires j <= k < |frames|
  {
    if k + 1 - j < s.minSamples || frames[k].at <= frames[j].at then 0.0
    else (k - j) as real / (frames[k].at - frames[j].at)
  }

  /** The rate over the frames that count, if there are enough, is at or above the threshold of the moment. */
  predicate Abnormal(s: Settings, frames: seq<Frame>, k: nat)
    requires k < |frames|
  {
    var rate := RateFrom(s, frames, WindowStart(s, frames, k, 0), k);
    rate > 0.0 && rate >= frames[k].expectedFps + s.margin
  }

  /** What the program compares at frame `k`. */
  predicate RateHigh(s: Settings, frames: seq<Frame>, k: nat)
    requires k < |frames|
  {
    var rate := ObservedFps(After(s, frames, k + 1).samples, s.minSamples);
    !(rate <= 0.0 || rate < Threshold(s, frames[k].expectedFps))
  }

  /** The comparison the program makes is on the sliding-window rate. */
  lemma RateHighIsAbnormal(s: Settings, frames: seq<Frame>, k: nat)
    requires ValidSettings(s) && Ordered(frames) && k < |frames|
    ensures RateHigh(s, frames, k) <==> Abnormal(s, frames, k)
  {
    hide Counts;
    SamplesAreWindow(s, frames, k);
    var j := WindowStart(s, frames, k, 0);
    assert ObservedFps(Times(frames, j, k + 1), s.minSamples) == RateFrom(s, frames, j, k);
  }

  /** All frames from `j` to `k` were above the threshold. */
  predicate HighSince(s: Settings, frames: seq<Frame>, j: nat, k: nat)
    requires k < |frames|
  {
    forall i | j <= i <= k :: RateHigh(s, frames, i)
  }

  /** What the two clocks of the state mean after frame `k`. */
  predicate Clocks(s: Settings, frames: seq<Frame>, k: nat, since: nat, last: Option<nat>)
    requires k < |frames|
  {
    var st := After(s, frames, k + 1);
    && (if RateHigh(s, frames, k)
        then since <= k && st.abnormalSince == Some(frames[since].at) && HighSince(s, frames, since, k)
             && (since > 0 ==> !RateHigh(s, frames, since - 1))
        else st.abnormalSince == None)
    && (if last.Some?
        then last.value <= k && st.lastReportAt == Some(frames[last.value].at) && Reports(s, frames, last.value)
             && forall i: nat | last.value < i <= k :: !Reports(s, frames, i)
        else st.lastReportAt == None && forall i: nat | i <= k :: !Reports(s, frames, i))
  }

  /** What one frame does to the two clocks, and when it raises the alarm. */
  lemma FrameMoves(s: Settings, frames: seq<Frame>, k: nat)
    requires k < |frames|
    ensures var st, next, at := After(s, frames, k), After(s, frames, k + 1), frames[k].at;
            && next.abnormalSince == (if !RateHigh(s, frames, k) then None
                                      else if st.abnormalSince.None? then Some(at) else st.abnormalSince)
            && next.lastReportAt == (if Reports(s, frames, k) then Some(at) else st.lastReportAt)
            && (Reports(s, frames, k) <==>
                && RateHigh(s, frames, k) && st.abnormalSince.Some? && at - st.abnormalSince.value >= s.sustain
                && (st.lastReportAt.Some? ==> at - st.lastReportAt.value >= s.cooldown))
  {
    hide Pruned, Push, ObservedFps;
    var st := After(s, frames, k).(expectedFps := frames[k].expectedFps);
    assert After(s, frames, k + 1) == Observed(s, st, frames[k].at).0;
  }

  lemma {:induction false} ClocksAfter(s: Settings, frames: seq<Frame>, k: nat) returns (since: nat, last: Option<nat>)
    requires k < |frames|
    ensures Clocks(s, frames, k, since, last)
  {
    hide Observed, RateHigh, Reports;
    FrameMoves(s, frames, k);
    since, last := k, None;
    if k > 0 {
      var before, earlier := ClocksAfter(s, frames, k - 1);
      since := if RateHigh(s, frames, k - 1) then before else k;
      last := if Reports(s, frames, k) then Some(k) else earlier;
    }
  }

  /**
    An alarm is raised at frame `k` exactly when the windowed rate was at or above its threshold at every
    frame since some frame at least `sustain` seconds earlier, and no alarm fell in the last `cooldown` seconds.
   */
  lemma ReportsExactly(s: Settings, frames: seq<Frame>, k: nat)
    requires ValidSettings(s) && Ordered(frames) && k < |frames|
    ensures Reports(s, frames, k) <==>
            && (exists j: nat :: j <= k && frames[k].at - frames[j].at >= s.sustain
                                 && forall i: nat | j <= i <= k :: Abnormal(s, frames, i))
            && (forall r: nat | r < k && Reports(s, frames, r) :: frames[k].at - frames[r].at >= s.cooldown)
  {
    forall i: nat | i < |frames|
      ensures RateHigh(s, frames, i) <==> Abnormal(s, frames, i)
    {
      RateHighIsAbnormal(s, frames, i);
    }
    ReportsByClocks(s, frames, k);
  }

  lemma ReportsByClocks(s: Settings, frames: seq<Frame>, k: nat)
    requires ValidSettings(s) && Ordered(frames) && k < |frames|
    ensures Reports(s, frames, k) <==>
            && (exists j: nat :: j <= k && frames[k].at - frames[j].at >= s.sustain && HighSince(s, frames, j, k))
            && (forall r: nat | r < k && Reports(s, frames, r) :: frames[k].at - frames[r].at >= s.cooldown)
  {
    hide Observed, RateHigh, Reports;
    FrameMoves(s, frames, k);
    if k > 0 {
      var since, last := ClocksAfter(s, frames, k - 1);
      LongEnough(s, frames, k, since, last);
    }
  }

  /** The abnormal clock has run for `sustain` exactly when some unbroken stretch has. */
  lemma LongEnough(s: Settings, frames: seq<Frame>, k: nat, since: nat, last: Option<nat>)
    requires ValidSettings(s) && Ordered(frames) && 0 < k < |frames| && Clocks(s, frames, k - 1, since, last)
    ensures var clock := After(s, frames, k).abnormalSince;
            RateHigh(s, frames, k) && clock.Some? && frames[k].at - clock.value >= s.sustain
            <==> exists j: nat :: j <= k && frames[k].at - frames[j].at >= s.sustain && HighSince(s, frames, j, k)
  {
    hide Observed, RateHigh, Reports, After;
    if RateHigh(s, frames, k) && RateHigh(s, frames, k - 1) {
      assert HighSince(s, frames, since, k);
      forall j: nat | j <= k && HighSince(s, frames, j, k)
        ensures j >= since
      {
      }
    }
  }

  /** Two alarms are never closer than the cooldown, and none comes in the first `sustain` seconds. */
  lemma AlarmsAreSpaced(s: Settings, frames: seq<Frame>, r: nat, k: nat)
    requires ValidSettings(s) && Ordered(frames) && r < k < |frames|
    requires Reports(s, frames, r) && Reports(s, frames, k)
    ensures frames[k].at - frames[r].at >= s.cooldown
    ensures frames[r].at - frames[0].at >= s.sustain
  {
    ReportsByClocks(s, frames, k);
    ReportsByClocks(s, frames, r);
  }

  // ---------------------------------------------------------------------------------------------
  // What an alarm says
  // ---------------------------------------------------------------------------------------------

  /** Alarms raised by the first `k` frames. */
  function AlarmsBefore(s: Settings, frames: seq<Frame>, k: nat): nat
    requires k <= |frames|
  {
    if k == 0 then 0 else AlarmsBefore(s, frames, k - 1) + if Reports(s, frames, k - 1) then 1 else 0
  }

  /** The report counter counts the alarms, and the last rate noted is the windowed one. */
  lemma {:induction false} CounterCountsAlarms(s: Settings, frames: seq<Frame>, k: nat)
    requires ValidSettings(s) && Ordered(frames) && k <= |frames|
    ensures After(s, frames, k).reports == AlarmsBefore(s, frames, k)
    ensures k > 0 ==>
              After(s, frames, k).lastObservedFps == RateFrom(s, frames, WindowStart(s, frames, k - 1, 0), k - 1)
  {
    hide Pruned, Push, ObservedFps, WindowStart;
    if k > 0 {
      CounterCountsAlarms(s, frames, k - 1);
      ObservedIsRate(s, frames, k - 1);
    }
  }

  lemma ObservedIsRate(s: Settings, frames: seq<Frame>, k: nat)
    requires ValidSettings(s) && Ordered(frames) && k < |frames|
    ensures ObservedFps(After(s, frames, k + 1).samples, s.minSamples)
         == RateFrom(s, frames, WindowStart(s, frames, k, 0), k)
    ensures After(s, frames, k + 1).samples
         == Pruned(Push(After(s, frames, k).samples, frames[k].at, s.maxSamples), frames[k].at - s.window)
  {
    hide Counts, After, Pruned, Push;
    SamplesAreWindow(s, frames, k);
    SamplesStep(s, frames, k);
    var j := WindowStart(s, frames, k, 0);
    assert ObservedFps(Times(frames, j, k + 1), s.minSamples) == RateFrom(s, frames, j, k);
  }

  /** The alarm of frame `k`. */
  function EventAt(s: Settings, frames: seq<Frame>, k: nat): Option<Event>
    requires k < |frames|
  {
    Observed(s, After(s, frames, k).(expectedFps := frames[k].expectedFps), frames[k].at).1
  }

  /**
    The numbers of an alarm: the rate over the sliding window, the declared rate and the declared rate plus margin,
    the time since the first frame of the unbroken stretch above it, and how many alarms there have been with this one.
   */
  lemma EventTells(s: Settings, frames: seq<Frame>, k: nat) returns (since: nat)
    requires ValidSettings(s) && Ordered(frames) && k < |frames| && EventAt(s, frames, k).Some?
    ensures var event := EventAt(s, frames, k).value;
            && event.observedFps == RateFrom(s, frames, WindowStart(s, frames, k, 0), k)
            && event.expectedFps == frames[k].expectedFps
            && event.thresholdFps == frames[k].expectedFps + s.margin
            && since <= k && event.sustained == frames[k].at - frames[since].at
            && event.occurrences == AlarmsBefore(s, frames, k) + 1
    ensures forall i: nat | since <= i <= k :: Abnormal(s, frames, i)
    ensures since > 0 ==> !Abnormal(s, frames, since - 1)
  {
    hide Counts, WindowStart;
    assert Reports(s, frames, k);
    ObservedIsRate(s, frames, k);
    CounterCountsAlarms(s, frames, k);
    EventNumbers(s, frames, k);
    FrameMoves(s, frames, k);
    hide Observed, Reports, Abnormal, RateFrom, After;
    var last;
    since, last := ClocksAfter(s, frames, k - 1);
    forall i: nat | i < |frames|
      ensures RateHigh(s, frames, i) <==> Abnormal(s, frames, i)
    {
      RateHighIsAbnormal(s, frames, i);
    }
    hide RateHigh;
  }

  lemma EventNumbers(s: Settings, frames: seq<Frame>, k: nat)
    requires k < |frames| && EventAt(s, frames, k).Some?
    ensures k > 0 && After(s, frames, k).abnormalSince.Some?
    ensures EventAt(s, frames, k).value == Event(
              ObservedFps(After(s, frames, k + 1).samples, s.minSamples), frames[k].expectedFps,
              frames[k].expectedFps + s.margin, frames[k].at - After(s, frames, k).abnormalSince.value,
              After(s, frames, k).reports + 1)
  {
    hide Pruned, Push, ObservedFps;
  }
}
