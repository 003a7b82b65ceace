/**
  The adaptive ladder of a stream processor: under load it lowers first the frame rate, then the input size,
  then the resolution of the view mode in use, and takes the steps back in the opposite order.
 */
module QualityLadder {
  import opened Numbers
  import opened Wrappers
  import opened RegionGeometry

  datatype Mode = Selected | Grid | Base

  /** The step lists of a mode; the last two are `sorted(set(...), reverse=True)`, none is empty. */
  datatype Profile = Profile(fps: seq<real>, imgsz: seq<int>, res: seq<real>)

  predicate ValidProfile(p: Profile) {
    && p.fps != [] && p.imgsz != [] && p.res != []
    && (forall i, j | 0 <= i < j < |p.imgsz| :: p.imgsz[i] > p.imgsz[j])
    && (forall i, j | 0 <= i < j < |p.res| :: p.res[i] > p.res[j])
  }

  datatype Rungs = Rungs(fps: nat, imgsz: nat, res: nat)

  function Advanced(p: Profile, r: Rungs): Rungs {
    if r.fps < |p.fps| - 1 then r.(fps := r.fps + 1)
    else if r.imgsz < |p.imgsz| - 1 then r.(imgsz := r.imgsz + 1)
    else if r.res < |p.res| - 1 then r.(res := r.res + 1)
    else r
  }

  function Relaxed(r: Rungs): Rungs {
    if r.res > 0 then r.(res := r.res - 1)
    else if r.imgsz > 0 then r.(imgsz := r.imgsz - 1)
    else if r.fps > 0 then r.(fps := r.fps - 1)
    else r
  }

  // ---------------------------------------------------------------------------------------------
  // The ladder is a line
  // ---------------------------------------------------------------------------------------------

  function Deepest(p: Profile): nat
    requires ValidProfile(p)
  {
    |p.fps| - 1 + |p.imgsz| - 1 + |p.res| - 1
  }

  /** Level `n`: the frame rate is lowered first, the resolution last. */
  function AtLevel(p: Profile, n: nat): (r: Rungs)
    requires ValidProfile(p) && n <= Deepest(p)
    ensures InOrder(p, r)
  {
    var f, i := |p.fps| - 1, |p.imgsz| - 1;
    if n <= f then Rungs(n, 0, 0) else if n <= f + i then Rungs(f, n - f, 0) else Rungs(f, i, n - f - i)
  }

  /** A step of one kind begins only when the kinds before it are exhausted. */
  predicate InOrder(p: Profile, r: Rungs) {
    && r.fps < |p.fps| && r.imgsz < |p.imgsz| && r.res < |p.res|
    && (r.imgsz > 0 ==> r.fps == |p.fps| - 1)
    && (r.res > 0 ==> r.fps == |p.fps| - 1 && r.imgsz == |p.imgsz| - 1)
  }

  lemma InOrderIsLevel(p: Profile, r: Rungs)
    requires ValidProfile(p)
    ensures InOrder(p, r) <==> r.fps + r.imgsz + r.res <= Deepest(p) && r == AtLevel(p, r.fps + r.imgsz + r.res)
  {
  }

  /** The levels form a line: a step down is one level deeper, a step up one level back, and the ends hold. */
  lemma LevelsFormLine(p: Profile, n: nat)
    requires ValidProfile(p) && n <= Deepest(p)
    ensures Advanced(p, AtLevel(p, n)) == AtLevel(p, if n < Deepest(p) then n + 1 else n)
    ensures Relaxed(AtLevel(p, n)) == AtLevel(p, if n > 0 then n - 1 else n)
    ensures forall m: nat | m <= Deepest(p) && AtLevel(p, m) == AtLevel(p, n) :: m == n
  {
    InOrderIsLevel(p, AtLevel(p, n));
  }

  /** Away from the ends, stepping down and up undo each other. */
  lemma StepsUndo(p: Profile, r: Rungs)
    requires ValidProfile(p) && InOrder(p, r)
    ensures r != AtLevel(p, Deepest(p)) <==> Relaxed(Advanced(p, r)) == r && Advanced(p, r) != r
    ensures r != AtLevel(p, 0) <==> Advanced(p, Relaxed(r)) == r && Relaxed(r) != r
  {
    InOrderIsLevel(p, r);
    var n := r.fps + r.imgsz + r.res;
    LevelsFormLine(p, n);
    LevelsFormLine(p, Deepest(p));
    if n < Deepest(p) {
      LevelsFormLine(p, n + 1);
    }
    if n > 0 {
      LevelsFormLine(p, n - 1);
    }
  }

  // ---------------------------------------------------------------------------------------------
  // What a level costs
  // ---------------------------------------------------------------------------------------------

  /** What a mode asks for before degradation, as configured. */
  datatype Wish = Wish(processFps: real, advancedFps: real, width: int, height: int, inputSize: int)

  datatype Applied = Applied(processFps: real, advancedFps: real, width: int, height: int, inputSize: Option<int>)

  function Throttled(fps: real, factor: real): real { MaxR(0.5, MaxR(0.5, fps) * factor) }

  function Scale(step: real): real { MaxR(0.4, MinR(1.0, step)) }

  function Hint(wished: int, step: int): int { Min(Max(0, wished), Max(128, step)) }

  function Scaled(size: int, scale: real, least: int): int { Max(least, RoundHalfEven(Times(size, scale))) }

  function Times(size: int, scale: real): real { size as real * scale }

  /** `_apply_qos_mode` with the adaptive ladder on; no input-size hint stands for 0. */
  function Apply(p: Profile, w: Wish, r: Rungs): Applied
    requires ValidProfile(p) && r.fps < |p.fps| && r.imgsz < |p.imgsz| && r.res < |p.res|
  {
    var factor := p.fps[r.fps];
    var scale := Scale(p.res[r.res]);
    var hint := Hint(w.inputSize, p.imgsz[r.imgsz]);
    Applied(
      Throttled(w.processFps, factor),
      Throttled(w.advancedFps, factor),
      Scaled(Max(160, w.width), scale, 160),
      Scaled(Max(120, w.height), scale, 120),
      if hint > 0 then Some(hint) else None)
  }

  /** `side` is the larger of `least` and the product, rounded. */
  predicate RoundedSide(side: int, product: real, least: int) {
    && side >= least
    && (side > least ==> -0.5 <= side as real - product <= 0.5)
    && (side == least ==> product <= least as real + 0.5)
  }

  /** What a level asks for, written out; the scale is the configured one between 0.4 and 1. */
  lemma ApplyExactly(p: Profile, w: Wish, r: Rungs, factor: real, scale: real)
    requires ValidProfile(p) && r.fps < |p.fps| && r.imgsz < |p.imgsz| && r.res < |p.res|
    requires factor == p.fps[r.fps]
    requires scale == if p.res[r.res] < 0.4 then 0.4 else if p.res[r.res] > 1.0 then 1.0 else p.res[r.res]
    ensures var a := Apply(p, w, r);
            && a.processFps == MaxR(0.5, MaxR(0.5, w.processFps) * factor)
            && a.advancedFps == MaxR(0.5, MaxR(0.5, w.advancedFps) * factor)
            && RoundedSide(a.width, Max(160, w.width) as real * scale, 160)
            && RoundedSide(a.height, Max(120, w.height) as real * scale, 120)
            && a.inputSize == (if w.inputSize <= 0 then None else Some(Min(w.inputSize, Max(128, p.imgsz[r.imgsz]))))
  {
    hide Scaled, Throttled, RoundedSide;
    assert scale == Scale(p.res[r.res]);
    hide Scale;
    ScaledIsRounded(Max(160, w.width), scale, 160);
    ScaledIsRounded(Max(120, w.height), scale, 120);
    ThrottledExactly(w.processFps, factor);
    ThrottledExactly(w.advancedFps, factor);
  }

  lemma ThrottledExactly(fps: real, factor: real)
    ensures Throttled(fps, factor) == MaxR(0.5, MaxR(0.5, fps) * factor)
  {
  }

  lemma ScaledIsRounded(size: int, scale: real, least: int)
    ensures RoundedSide(Scaled(size, scale, least), size as real * scale, least)
  {
    RoundIsNearest(Times(size, scale), 0);
    hide RoundHalfEven;
  }

  function Size(hint: Option<int>): int { if hint.Some? then hint.value else 0 }

  predicate NotAbove(a: Applied, b: Applied) {
    && a.processFps <= b.processFps && a.advancedFps <= b.advancedFps
    && a.width <= b.width && a.height <= b.height
    && Size(a.inputSize) <= Size(b.inputSize) && a.inputSize.Some? == b.inputSize.Some?
  }

  /** The frame-rate factors never grow, as far as they are positive. */
  predicate FactorsFall(p: Profile) {
    forall i, j | 0 <= i < j < |p.fps| && p.fps[j] > 0.0 :: p.fps[i] >= p.fps[j]
  }

  lemma ScaledMonotone(size: int, a: real, b: real, least: int)
    requires size >= 0 && a <= b
    ensures Scaled(size, a, least) <= Scaled(size, b, least)
  {
    assert (b - a) * size as real >= 0.0;
    assert Times(size, a) <= Times(size, b);
    hide Times;
    RoundMonotone(Times(size, a), Times(size, b));
  }

  lemma RoundMonotone(a: real, b: real)
    requires a <= b
    ensures RoundHalfEven(a) <= RoundHalfEven(b)
  {
  }

  lemma FpsMonotone(w: real, f: real, g: real)
    requires g > 0.0 ==> f >= g
    ensures Throttled(w, g) <= Throttled(w, f)
  {
    var base := MaxR(0.5, w);
    if g > 0.0 {
      assert base * g <= base * f;
    } else {
      assert base * g <= 0.0;
    }
  }

  /** With falling factors a deeper level asks for no more of anything. */
  lemma DeeperNeverRaises(p: Profile, w: Wish, n: nat, m: nat)
    requires ValidProfile(p) && FactorsFall(p) && n <= m <= Deepest(p)
    ensures NotAbove(Apply(p, w, AtLevel(p, m)), Apply(p, w, AtLevel(p, n)))
  {
    var a, b := AtLevel(p, m), AtLevel(p, n);
    assert b.fps <= a.fps && b.imgsz <= a.imgsz && b.res <= a.res;
    hide AtLevel, Scaled, Throttled;
    if b.fps < a.fps {
      FpsMonotone(w.processFps, p.fps[b.fps], p.fps[a.fps]);
      FpsMonotone(w.advancedFps, p.fps[b.fps], p.fps[a.fps]);
    }
    assert p.imgsz[a.imgsz] <= p.imgsz[b.imgsz];
    assert p.res[a.res] <= p.res[b.res];
    ScaledMonotone(Max(160, w.width), Scale(p.res[a.res]), Scale(p.res[b.res]), 160);
    ScaledMonotone(Max(120, w.height), Scale(p.res[a.res]), Scale(p.res[b.res]), 120);
    hide Scale, Hint;
  }

  ghost predicate NeverRaises(p: Profile)
    requires ValidProfile(p)
  {
    forall w, n: nat, m: nat | n <= m <= Deepest(p) :: NotAbove(Apply(p, w, AtLevel(p, m)), Apply(p, w, AtLevel(p, n)))
  }

  /** A wish high enough to make a growing factor visible. */
  lemma GrowingFactorShows(f: real, g: real) returns (w: real)
    requires 0.0 < g && f < g
    ensures Throttled(w, g) > Throttled(w, f)
  {
    w := MaxR(0.5, 1.0 / g);
    assert w * g >= (1.0 / g) * g == 1.0;
    assert w * f < w * g;
  }

  lemma FpsAtLevel(p: Profile, w: Wish, n: nat)
    requires ValidProfile(p) && n < |p.fps|
    ensures Apply(p, w, AtLevel(p, n)).processFps == Throttled(w.processFps, p.fps[n])
  {
  }

  /** The factors are not sorted by the program, so degrading never raises anything exactly when they fall. */
  lemma NeverRaisesExactly(p: Profile)
    requires ValidProfile(p)
    ensures NeverRaises(p) <==> FactorsFall(p)
  {
    hide Apply, AtLevel, Throttled;
    if FactorsFall(p) {
      forall w, n: nat, m: nat | n <= m <= Deepest(p)
        ensures NotAbove(Apply(p, w, AtLevel(p, m)), Apply(p, w, AtLevel(p, n)))
      {
        DeeperNeverRaises(p, w, n, m);
      }
    } else {
      var i, j :| 0 <= i < j < |p.fps| && p.fps[j] > 0.0 && p.fps[i] < p.fps[j];
      var fps := GrowingFactorShows(p.fps[i], p.fps[j]);
      var w := Wish(fps, fps, 0, 0, 0);
      FpsAtLevel(p, w, i);
      FpsAtLevel(p, w, j);
      assert !NotAbove(Apply(p, w, AtLevel(p, j)), Apply(p, w, AtLevel(p, i)));
    }
  }

  // ---------------------------------------------------------------------------------------------
  // When the ladder moves
  // ---------------------------------------------------------------------------------------------

  datatype Limits = Limits(
    window: real, degradeCooldown: real, recoverCooldown: real,
    dropHigh: real, dropLow: real, cpuHigh: real, cpuLow: real)

  /** The ranges the constructor enforces. */
  predicate ValidLimits(l: Limits) {
    && l.window >= 3.0 && l.degradeCooldown >= 2.0 && l.recoverCooldown >= 2.0
    && 0.01 <= l.dropHigh <= 0.95 && 0.0 <= l.dropLow <= 0.5
    && 10.0 <= l.cpuHigh <= 99.0 && 5.0 <= l.cpuLow <= 95.0
  }

  predicate Overloaded(l: Limits, ratio: real, cpu: Option<real>) {
    ratio >= l.dropHigh || (cpu.Some? && cpu.value >= l.cpuHigh)
  }

  predicate Recovered(l: Limits, ratio: real, cpu: Option<real>) {
    ratio <= l.dropLow && !(cpu.Some? && cpu.value > l.cpuLow)
  }

  datatype State = State(
    rungs: map<Mode, Rungs>, lastEvalAt: real, lastChangeAt: real, lastEnqueued: int, lastDropped: int)

  /** What one evaluation reads: the clock, the capture counters, the processor load, the mode in use. */
  datatype Tick = Tick(now: real, enqueued: int, dropped: int, cpu: Option<real>, mode: Mode)

  predicate AllModes(rungs: map<Mode, Rungs>) { forall m: Mode :: m in rungs }

  function DropRatio(st: State, t: Tick): real {
    Max(0, t.dropped - st.lastDropped) as real / Max(1, Max(0, t.enqueued - st.lastEnqueued)) as real
  }

  datatype Move = Deeper | Back | Stay

  /** What an evaluation tries to do, from the times since the last evaluation and change, and the load. */
  function Decided(l: Limits, sinceEval: real, elapsed: real, ratio: real, cpu: Option<real>): Move {
    if sinceEval < l.window then Stay
    else if Overloaded(l, ratio, cpu) && elapsed >= l.degradeCooldown then Deeper
    else if Recovered(l, ratio, cpu) && elapsed >= l.recoverCooldown then Back
    else Stay
  }

  function Wanted(l: Limits, st: State, t: Tick): Move {
    Decided(l, t.now - st.lastEvalAt, t.now - st.lastChangeAt, DropRatio(st, t), t.cpu)
  }

  function Moved(p: Profile, r: Rungs, move: Move): Rungs {
    match move
    case Deeper => Advanced(p, r)
    case Back => Relaxed(r)
    case Stay => r
  }

  function Evaluated(l: Limits, profiles: map<Mode, Profile>, st: State, t: Tick): State
    requires AllModes(st.rungs) && t.mode in profiles
  {
    if t.now - st.lastEvalAt < l.window then st
    else
      var after := Moved(profiles[t.mode], st.rungs[t.mode], Wanted(l, st, t));
      State(st.rungs[t.mode := after], t.now, if after != st.rungs[t.mode] then t.now else st.lastChangeAt,
            t.enqueued, t.dropped)
  }

  class Ladder {
    const limits: Limits
    const profiles: map<Mode, Profile>
    var rungs: map<Mode, Rungs>
    var lastEvalAt: real
    var lastChangeAt: real
    var lastEnqueued: int
    var lastDropped: int

    function View(): State
      reads this
    {
      State(rungs, lastEvalAt, lastChangeAt, lastEnqueued, lastDropped)
    }

    constructor (l: Limits, p: map<Mode, Profile>)
      ensures limits == l && profiles == p && View() == Initial()
    {
      limits, profiles := l, p;
      var zero := Rungs(0, 0, 0);
      rungs := map[Selected := zero, Grid := zero, Base := zero];
      lastEvalAt, lastChangeAt, lastEnqueued, lastDropped := 0.0, 0.0, 0, 0;
    }

    method Advance(mode: Mode)
      requires AllModes(rungs) && mode in profiles
      modifies this`rungs
      ensures rungs == old(rungs)[mode := Advanced(profiles[mode], old(rungs)[mode])]
    {
      var p, r := profiles[mode], rungs[mode];
      if r.fps < |p.fps| - 1 {
        rungs := rungs[mode := r.(fps := r.fps + 1)];
        return;
      }
      if r.imgsz < |p.imgsz| - 1 {
        rungs := rungs[mode := r.(imgsz := r.imgsz + 1)];
        return;
      }
      if r.res < |p.res| - 1 {
        rungs := rungs[mode := r.(res := r.res + 1)];
      }
    }

    method Relax(mode: Mode)
      requires AllModes(rungs)
      modifies this`rungs
      ensures rungs == old(rungs)[mode := Relaxed(old(rungs)[mode])]
    {
      var r := rungs[mode];
      if r.res > 0 {
        rungs := rungs[mode := r.(res := r.res - 1)];
        return;
      }
      if r.imgsz > 0 {
        rungs := rungs[mode := r.(imgsz := r.imgsz - 1)];
        return;
      }
      if r.fps > 0 {
        rungs := rungs[mode := r.(fps := r.fps - 1)];
      }
    }

    /** `_evaluate_adaptive_degradation`, on a processor with the ladder on. */
    method Evaluate(t: Tick)
      requires AllModes(rungs) && t.mode in profiles
      modifies this
      ensures View() == Evaluated(limits, profiles, old(View()), t)
    {
      if t.now - lastEvalAt < limits.window {
        return;
      }
      lastEvalAt := t.now;
      var ratio := DropRatio(View(), t);
      lastEnqueued, lastDropped := t.enqueued, t.dropped;
      var overloaded := ratio >= limits.dropHigh;
      if t.cpu.Some? && t.cpu.value >= limits.cpuHigh {
        overloaded := true;
      }
      var recovered := ratio <= limits.dropLow;
      if t.cpu.Some? && t.cpu.value > limits.cpuLow {
        recovered := false;
      }
      var elapsed := t.now - lastChangeAt;
      var before := rungs[t.mode];
      if overloaded && elapsed >= limits.degradeCooldown {
        Advance(t.mode);
        if before != rungs[t.mode] {
          lastChangeAt := t.now;
        }
      } else if recovered && elapsed >= limits.recoverCooldown {
        Relax(t.mode);
        if before != rungs[t.mode] {
          lastChangeAt := t.now;
        }
      }
    }
  }

  function Initial(): (st: State)
    ensures AllModes(st.rungs)
  {
    var zero := Rungs(0, 0, 0);
    var rungs := map[Selected := zero, Grid := zero, Base := zero];
    ThreeModes(rungs);
    State(rungs, 0.0, 0.0, 0, 0)
  }

  lemma ThreeModes(rungs: map<Mode, Rungs>)
    requires Selected in rungs && Grid in rungs && Base in rungs
    ensures AllModes(rungs)
  {
    forall m: Mode
      ensures m in rungs
    {
      match m case Selected => case Grid => case Base =>
    }
  }

  // ---------------------------------------------------------------------------------------------
  // Runs
  // ---------------------------------------------------------------------------------------------

  predicate ValidProfiles(profiles: map<Mode, Profile>) {
    forall m: Mode :: m in profiles && ValidProfile(profiles[m])
  }

  function After(l: Limits, profiles: map<Mode, Profile>, ticks: seq<Tick>): (st: State)
    requires ValidProfiles(profiles)
    ensures AllModes(st.rungs)
  {
    if ticks == [] then Initial()
    else
      var t := ticks[|ticks| - 1];
      Evaluated(l, profiles, After(l, profiles, ticks[..|ticks| - 1]), t)
  }

  /** In every reachable state each mode stands on a level of its ladder. */
  lemma {:induction false} RunsStayInOrder(l: Limits, profiles: map<Mode, Profile>, ticks: seq<Tick>, m: Mode)
    requires ValidProfiles(profiles) && m in profiles
    ensures InOrder(profiles[m], After(l, profiles, ticks).rungs[m])
  {
    if ticks != [] {
      var t := ticks[|ticks| - 1];
      RunsStayInOrder(l, profiles, ticks[..|ticks| - 1], m);
    }
  }

  /** Tick `i` moved the ladder of its mode, and which way. */
  function MoveAt(l: Limits, profiles: map<Mode, Profile>, ticks: seq<Tick>, i: nat): Move
    requires ValidProfiles(profiles) && i < |ticks|
  {
    var st, t := After(l, profiles, ticks[..i]), ticks[i];
    var move := Wanted(l, st, t);
    if Moved(profiles[t.mode], st.rungs[t.mode], move) != st.rungs[t.mode] then move else Stay
  }

  predicate Ordered(ticks: seq<Tick>) { forall i, j | 0 <= i < j < |ticks| :: ticks[i].now <= ticks[j].now }

  lemma DecidedInWindow(l: Limits, sinceEval: real, elapsed: real, ratio: real, cpu: Option<real>)
    ensures Decided(l, sinceEval, elapsed, ratio, cpu) != Stay ==> sinceEval >= l.window
  {
  }

  /** The change clock is never behind a change already made. */
  lemma {:induction false} ChangeClock(l: Limits, profiles: map<Mode, Profile>, ticks: seq<Tick>, i: nat)
    requires ValidProfiles(profiles) && Ordered(ticks) && i < |ticks| && MoveAt(l, profiles, ticks, i) != Stay
    ensures After(l, profiles, ticks).lastChangeAt >= ticks[i].now
  {
    hide Moved, Decided;
    var n := |ticks| - 1;
    if i < n {
      assert ticks[..n][..i] == ticks[..i];
      ChangeClock(l, profiles, ticks[..n], i);
    } else {
      DecidedInWindow(l, ticks[n].now - After(l, profiles, ticks[..n]).lastEvalAt,
                      ticks[n].now - After(l, profiles, ticks[..n]).lastChangeAt,
                      DropRatio(After(l, profiles, ticks[..n]), ticks[n]), ticks[n].cpu);
    }
  }

  /** Two moves of the ladder, of any modes, are at least the cooldown of the second apart. */
  lemma MovesAreSpaced(l: Limits, profiles: map<Mode, Profile>, ticks: seq<Tick>, i: nat, j: nat)
    requires ValidProfiles(profiles) && ValidLimits(l) && Ordered(ticks) && i < j < |ticks|
    requires MoveAt(l, profiles, ticks, i) != Stay && MoveAt(l, profiles, ticks, j) != Stay
    ensures ticks[j].now - ticks[i].now
         >= if MoveAt(l, profiles, ticks, j) == Deeper then l.degradeCooldown else l.recoverCooldown
    ensures ticks[j].now - ticks[i].now >= 2.0
  {
    hide Moved, Overloaded, Recovered, Evaluated;
    assert ticks[..j][..i] == ticks[..i];
    ChangeClock(l, profiles, ticks[..j], i);
  }

  // ---------------------------------------------------------------------------------------------
  // What every tick does
  // ---------------------------------------------------------------------------------------------

  /** The last of the first `i` ticks at which the load was evaluated: a window after the one before. */
  function LastEvaluation(l: Limits, ticks: seq<Tick>, i: nat): (k: Option<nat>)
    requires i <= |ticks|
    ensures k.Some? ==> k.value < i
  {
    if i == 0 then None
    else
      var before := LastEvaluation(l, ticks, i - 1);
      if ticks[i - 1].now - TimeOf(ticks, before) >= l.window then Some(i - 1) else before
  }

  /** The clock at a tick; the program starts at 0. */
  function TimeOf(ticks: seq<Tick>, k: Option<nat>): real
    requires k.Some? ==> k.value < |ticks|
  {
    if k.Some? then ticks[k.value].now else 0.0
  }

  function EnqueuedAt(ticks: seq<Tick>, k: Option<nat>): int
    requires k.Some? ==> k.value < |ticks|
  {
    if k.Some? then ticks[k.value].enqueued else 0
  }

  function DroppedAt(ticks: seq<Tick>, k: Option<nat>): int
    requires k.Some? ==> k.value < |ticks|
  {
    if k.Some? then ticks[k.value].dropped else 0
  }

  /** The two clocks and the two counters of the state. */
  lemma {:induction false} EvaluationClock(l: Limits, profiles: map<Mode, Profile>, ticks: seq<Tick>, i: nat)
    requires ValidProfiles(profiles) && i <= |ticks|
    ensures var st, k := After(l, profiles, ticks[..i]), LastEvaluation(l, ticks, i);
            && st.lastEvalAt == TimeOf(ticks, k)
            && st.lastEnqueued == EnqueuedAt(ticks, k) && st.lastDropped == DroppedAt(ticks, k)
  {
    hide Moved, Wanted;
    if i > 0 {
      EvaluationClock(l, profiles, ticks, i - 1);
      assert ticks[..i][..i - 1] == ticks[..i - 1];
    }
  }

  /** Tick `k` changed a level. */
  predicate ChangesAt(l: Limits, profiles: map<Mode, Profile>, ticks: seq<Tick>, k: nat)
    requires ValidProfiles(profiles) && k < |ticks|
  {
    After(l, profiles, ticks[..k + 1]).rungs != After(l, profiles, ticks[..k]).rungs
  }

  /** `k` is the last of the first `i` ticks that changed a level. */
  predicate LastChange(l: Limits, profiles: map<Mode, Profile>, ticks: seq<Tick>, i: nat, k: Option<nat>)
    requires ValidProfiles(profiles) && i <= |ticks|
  {
    && (k.Some? ==> k.value < i && ChangesAt(l, profiles, ticks, k.value))
    && forall j: nat | j < i && (k.Some? ==> k.value < j) :: !ChangesAt(l, profiles, ticks, j)
  }

  lemma OneTick(l: Limits, profiles: map<Mode, Profile>, ticks: seq<Tick>, i: nat)
    requires ValidProfiles(profiles) && i < |ticks|
    ensures After(l, profiles, ticks[..i + 1]) == Evaluated(l, profiles, After(l, profiles, ticks[..i]), ticks[i])
  {
    assert ticks[..i + 1][..i] == ticks[..i];
  }

  lemma EvaluatedChanges(l: Limits, profiles: map<Mode, Profile>, st: State, t: Tick)
    requires AllModes(st.rungs) && t.mode in profiles
    ensures Evaluated(l, profiles, st, t).lastChangeAt ==
            if Evaluated(l, profiles, st, t).rungs != st.rungs then t.now else st.lastChangeAt
  {
    hide Moved, Wanted;
    var after := Evaluated(l, profiles, st, t);
    if after.rungs[t.mode] == st.rungs[t.mode] {
      assert after.rungs == st.rungs;
    }
  }

  lemma {:induction false} ChangeClockExactly(l: Limits, profiles: map<Mode, Profile>, ticks: seq<Tick>, i: nat) returns (k: Option<nat>)
    requires ValidProfiles(profiles) && i <= |ticks|
    ensures LastChange(l, profiles, ticks, i, k) && After(l, profiles, ticks[..i]).lastChangeAt == TimeOf(ticks, k)
  {
    hide Evaluated;
    k := None;
    if i > 0 {
      k := ChangeClockExactly(l, profiles, ticks, i - 1);
      OneTick(l, profiles, ticks, i - 1);
      EvaluatedChanges(l, profiles, After(l, profiles, ticks[..i - 1]), ticks[i - 1]);
      if ChangesAt(l, profiles, ticks, i - 1) {
        k := Some(i - 1);
      }
      hide After;
    }
  }

  /**
    What a tick does to the level of a mode. Nothing to other modes, nor within a window of the last evaluation.
    Otherwise, on the frames dropped and enqueued since then and the processor load: one level deeper under overload,
    the degradation cooldown after the last change; else one back on recovery, the recovery cooldown after it.
   */
  lemma LadderExactly(l: Limits, profiles: map<Mode, Profile>, ticks: seq<Tick>, i: nat, m: Mode) returns (change: Option<nat>)
    requires ValidProfiles(profiles) && i < |ticks| && m in profiles
    ensures LastChange(l, profiles, ticks, i, change)
    ensures var last, t := LastEvaluation(l, ticks, i), ticks[i];
            var dropped, enqueued := t.dropped - DroppedAt(ticks, last), t.enqueued - EnqueuedAt(ticks, last);
            var ratio := (if dropped < 0 then 0 else dropped) as real / (if enqueued < 1 then 1 else enqueued) as real;
            var overloaded := ratio >= l.dropHigh || (t.cpu.Some? && t.cpu.value >= l.cpuHigh);
            var recovered := ratio <= l.dropLow && (t.cpu.None? || t.cpu.value <= l.cpuLow);
            var elapsed := t.now - TimeOf(ticks, change);
            var before, after := After(l, profiles, ticks[..i]).rungs[m], After(l, profiles, ticks[..i + 1]).rungs[m];
            var n, deepest := before.fps + before.imgsz + before.res, Deepest(profiles[m]);
            && n <= deepest && before == AtLevel(profiles[m], n)
            && after == AtLevel(profiles[m],
                 if m != t.mode || t.now - TimeOf(ticks, last) < l.window then n
                 else if overloaded && elapsed >= l.degradeCooldown then (if n < deepest then n + 1 else n)
                 else if recovered && elapsed >= l.recoverCooldown then (if n > 0 then n - 1 else n)
                 else n)
  {
    hide AtLevel, Deepest, Advanced, Relaxed, InOrder;
    change := ChangeClockExactly(l, profiles, ticks, i);
    EvaluationClock(l, profiles, ticks, i);
    OneTick(l, profiles, ticks, i);
    RunsStayInOrder(l, profiles, ticks[..i], m);
    var st := After(l, profiles, ticks[..i]);
    var before := st.rungs[m];
    InOrderIsLevel(profiles[m], before);
    LevelsFormLine(profiles[m], before.fps + before.imgsz + before.res);
    DropRatioExactly(st, ticks[i]);
    hide After, LastChange, DropRatio, LastEvaluation, TimeOf, EnqueuedAt, DroppedAt;
  }

  lemma DropRatioExactly(st: State, t: Tick)
    ensures var dropped, enqueued := t.dropped - st.lastDropped, t.enqueued - st.lastEnqueued;
            DropRatio(st, t) == (if dropped < 0 then 0 else dropped) as real / (if enqueued < 1 then 1 else enqueued) as real
  {
  }

  /** A threshold that some counters meet exactly; every float does. */
  ghost predicate IsShare(x: real) { exists dropped: nat, enqueued: nat :: Share(dropped, enqueued) == x }

  function Share(dropped: nat, enqueued: nat): real { dropped as real / Max(1, enqueued) as real }

  /** Some load is at once at a high limit and within the low ones. */
  ghost predicate LoadsOverlap(l: Limits) {
    l.dropHigh < l.dropLow || (l.dropHigh == l.dropLow && IsShare(l.dropHigh)) || l.cpuHigh <= l.cpuLow
  }

  lemma MoreThanOne(n: real, q: real, width: real)
    requires n > q && width > 0.0 && q == 1.0 / width
    ensures Product(n, width) > 1.0
  {
    assert q * width == 1.0;
    assert (n - q) * width > 0.0;
  }

  function Product(a: real, b: real): real { a * b }

  /** Enough parts that one of them fits in the width. */
  lemma FineParts(width: real) returns (n: nat)
    requires width > 0.0
    ensures n > 0 && Product(n as real, width) > 1.0
  {
    hide Product;
    var q := 1.0 / width;
    assert q > 0.0;
    n := q.Floor + 1;
    MoreThanOne(n as real, q, width);
  }

  lemma QuotientBetween(a: real, n: real, low: real, high: real)
    requires n > 0.0 && low * n <= a <= high * n
    ensures low <= a / n <= high
  {
    var q := a / n;
    assert q * n == a;
    assert q < low ==> (low - q) * n > 0.0;
    assert q > high ==> (q - high) * n > 0.0;
  }

  lemma PartBetween(low: real, high: real, n: nat) returns (k: nat)
    requires 0.0 <= low <= high && Product(n as real, high - low) > 1.0
    ensures low * n as real <= k as real <= high * n as real
  {
    var top, bottom := high * n as real, low * n as real;
    assert n as real * (high - low) == top - bottom;
    assert top >= 0.0;
    k := top.Floor;
  }

  lemma ShareBetween(low: real, high: real) returns (dropped: nat, enqueued: nat)
    requires 0.0 <= low < high
    ensures low <= Share(dropped, enqueued) <= high
  {
    hide Product;
    enqueued := FineParts(high - low);
    dropped := PartBetween(low, high, enqueued);
    QuotientBetween(dropped as real, enqueued as real, low, high);
  }

  /** A load of counters and processor can be both overload and recovery exactly when the limits overlap. */
  lemma LoadsOverlapExactly(l: Limits)
    requires ValidLimits(l)
    ensures (exists dropped: nat, enqueued: nat, cpu: Option<real> ::
               Overloaded(l, Share(dropped, enqueued), cpu) && Recovered(l, Share(dropped, enqueued), cpu))
       <==> LoadsOverlap(l)
  {
    if LoadsOverlap(l) {
      var dropped, enqueued, cpu := OverlappingLoad(l);
    }
  }

  lemma OverlappingLoad(l: Limits) returns (dropped: nat, enqueued: nat, cpu: Option<real>)
    requires ValidLimits(l) && LoadsOverlap(l)
    ensures Overloaded(l, Share(dropped, enqueued), cpu) && Recovered(l, Share(dropped, enqueued), cpu)
  {
    cpu := None;
    if l.dropHigh < l.dropLow {
      dropped, enqueued := ShareBetween(l.dropHigh, l.dropLow);
    } else if l.dropHigh == l.dropLow && IsShare(l.dropHigh) {
      dropped, enqueued :| Share(dropped, enqueued) == l.dropHigh;
    } else {
      dropped, enqueued, cpu := 0, 0, Some(l.cpuHigh);
      assert Share(0, 0) == 0.0;
    }
  }

  /** The capture counters only grow. */
  predicate Counting(ticks: seq<Tick>) {
    && (forall i | 0 <= i < |ticks| :: 0 <= ticks[i].enqueued && 0 <= ticks[i].dropped)
    && forall i, j | 0 <= i < j < |ticks| :: ticks[i].enqueued <= ticks[j].enqueued && ticks[i].dropped <= ticks[j].dropped
  }

  /** Tick `i` takes a step back although its load is an overload. */
  predicate BackUnderOverload(l: Limits, profiles: map<Mode, Profile>, ticks: seq<Tick>, i: nat)
    requires ValidProfiles(profiles) && i < |ticks|
  {
    && MoveAt(l, profiles, ticks, i) == Back
    && Overloaded(l, DropRatio(After(l, profiles, ticks[..i]), ticks[i]), ticks[i].cpu)
  }

  /** A change happens only in an evaluation, so the change clock is never ahead of the evaluation clock. */
  lemma {:induction false} ChangeBeforeEvaluation(l: Limits, profiles: map<Mode, Profile>, ticks: seq<Tick>)
    requires ValidProfiles(profiles) && ValidLimits(l)
    ensures After(l, profiles, ticks).lastChangeAt <= After(l, profiles, ticks).lastEvalAt
  {
    hide Moved, Wanted;
    if ticks != [] {
      ChangeBeforeEvaluation(l, profiles, ticks[..|ticks| - 1]);
    }
  }

  /** The run that shows it: one overloaded evaluation degrades, the next one, as loaded, takes the step back. */
  function Backtrack(l: Limits, mode: Mode, dropped: nat, enqueued: nat, cpu: Option<real>): seq<Tick> {
    var start := l.window + l.degradeCooldown;
    [Tick(start, enqueued, dropped, cpu, mode),
     Tick(start + MaxR(l.window, l.recoverCooldown), enqueued + enqueued, dropped + dropped, cpu, mode)]
  }

  lemma BacktrackGoesBack(l: Limits, profiles: map<Mode, Profile>, mode: Mode, dropped: nat, enqueued: nat, cpu: Option<real>)
    requires ValidProfiles(profiles) && ValidLimits(l) && mode in profiles && Deepest(profiles[mode]) > 0
    requires l.window < l.degradeCooldown && l.recoverCooldown < l.degradeCooldown
    requires Overloaded(l, Share(dropped, enqueued), cpu) && Recovered(l, Share(dropped, enqueued), cpu)
    ensures var ticks := Backtrack(l, mode, dropped, enqueued, cpu);
            Ordered(ticks) && Counting(ticks) && BackUnderOverload(l, profiles, ticks, 1)
  {
    hide Overloaded, Recovered, Share, DropRatio, Advanced, Relaxed, AtLevel, Evaluated, Deepest;
    var ticks := Backtrack(l, mode, dropped, enqueued, cpu);
    var first, second := ticks[0], ticks[1];
    assert ticks[..1] == [first] && ticks[..1][..0] == [];
    SharesOfRun(Initial(), first, second, dropped, enqueued);
    FromTopToOne(l, profiles, Initial(), first);
    var after := Evaluated(l, profiles, Initial(), first);
    assert After(l, profiles, []) == Initial();
    assert After(l, profiles, ticks[..1]) == after;
    assert after == State(after.rungs, after.lastEvalAt, after.lastChangeAt, first.enqueued, first.dropped);
    BackFromOne(l, profiles, after, second);
    hide After;
  }

  lemma FromTopToOne(l: Limits, profiles: map<Mode, Profile>, st: State, t: Tick)
    requires ValidProfiles(profiles) && AllModes(st.rungs) && t.mode in profiles && Deepest(profiles[t.mode]) > 0
    requires st.rungs[t.mode] == Rungs(0, 0, 0) && Wanted(l, st, t) == Deeper
    ensures var next := Evaluated(l, profiles, st, t);
            && next.rungs[t.mode] == AtLevel(profiles[t.mode], 1)
            && next.lastEvalAt == t.now && next.lastChangeAt == t.now
            && next.lastEnqueued == t.enqueued && next.lastDropped == t.dropped
  {
    hide Overloaded, Recovered, DropRatio;
    LevelsFormLine(profiles[t.mode], 0);
    LevelsFormLine(profiles[t.mode], 1);
  }

  lemma BackFromOne(l: Limits, profiles: map<Mode, Profile>, st: State, t: Tick)
    requires ValidProfiles(profiles) && AllModes(st.rungs) && t.mode in profiles && Deepest(profiles[t.mode]) > 0
    requires st.rungs[t.mode] == AtLevel(profiles[t.mode], 1)
    ensures Relaxed(st.rungs[t.mode]) != st.rungs[t.mode]
  {
    LevelsFormLine(profiles[t.mode], 0);
    LevelsFormLine(profiles[t.mode], 1);
  }

  lemma SharesOfRun(st: State, first: Tick, second: Tick, dropped: nat, enqueued: nat)
    requires st.lastDropped == 0 && st.lastEnqueued == 0
    requires first.dropped == dropped && first.enqueued == enqueued
    requires second.dropped == dropped + dropped && second.enqueued == enqueued + enqueued
    ensures DropRatio(st, first) == Share(dropped, enqueued)
    ensures forall rungs, eval, change ::
              DropRatio(State(rungs, eval, change, first.enqueued, first.dropped), second) == Share(dropped, enqueued)
  {
  }

  /** A step back under overload is an overlapping load, between the two cooldowns, at a lowered level. */
  lemma BackNeedsOverlap(l: Limits, profiles: map<Mode, Profile>, ticks: seq<Tick>, i: nat)
    requires ValidProfiles(profiles) && ValidLimits(l) && i < |ticks| && BackUnderOverload(l, profiles, ticks, i)
    ensures LoadsOverlap(l) && l.window < l.degradeCooldown && l.recoverCooldown < l.degradeCooldown
    ensures Deepest(profiles[ticks[i].mode]) > 0
  {
    var st, t := After(l, profiles, ticks[..i]), ticks[i];
    ChangeBeforeEvaluation(l, profiles, ticks[..i]);
    RunsStayInOrder(l, profiles, ticks[..i], t.mode);
    var dropped, enqueued := Max(0, t.dropped - st.lastDropped), Max(0, t.enqueued - st.lastEnqueued);
    assert DropRatio(st, t) == Share(dropped, enqueued);
    hide Share, DropRatio, After, Overloaded, Recovered;
    LoadsOverlapExactly(l);
  }

  /**
    Over runs: a step back under overload happens in some run exactly when the load limits overlap, both the
    window and the recovery cooldown are shorter than the degradation cooldown, and some mode has a level to lose.
   */
  lemma BackUnderOverloadExactly(l: Limits, profiles: map<Mode, Profile>)
    requires ValidProfiles(profiles) && ValidLimits(l)
    ensures (exists ticks: seq<Tick>, i: nat ::
               i < |ticks| && Ordered(ticks) && Counting(ticks) && BackUnderOverload(l, profiles, ticks, i))
       <==> && LoadsOverlap(l) && l.window < l.degradeCooldown && l.recoverCooldown < l.degradeCooldown
            && exists mode: Mode :: mode in profiles && Deepest(profiles[mode]) > 0
  {
    hide BackUnderOverload, LoadsOverlap, Ordered, Counting, Deepest;
    if ticks: seq<Tick>, i: nat :|
      i < |ticks| && Ordered(ticks) && Counting(ticks) && BackUnderOverload(l, profiles, ticks, i)
    {
      BackNeedsOverlap(l, profiles, ticks, i);
    }
    if mode: Mode :|
      && LoadsOverlap(l) && l.window < l.degradeCooldown && l.recoverCooldown < l.degradeCooldown
      && mode in profiles && Deepest(profiles[mode]) > 0
    {
      var dropped, enqueued, cpu := OverlappingLoad(l);
      BacktrackGoesBack(l, profiles, mode, dropped, enqueued, cpu);
    }
  }
}
