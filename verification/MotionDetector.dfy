/**
  `MotionDetector`: the confirmation counters around a background model. The pictures, the background model
  and the morphology are inputs: a frame arrives as the number of moving pixels and the connected components.
 */
module MotionDetector {
  import opened Numbers
  import Sorting
  import opened Wrappers

  datatype Component = Component(area: nat, left: int, top: int, width: int, height: int)

  /** What one frame looks like after the background model; `globalFrom` is the global-change limit in force. */
  datatype Frame = Frame(pixels: nat, globalFrom: int, components: seq<Component>)

  datatype Config = Config(
    width: nat, height: nat, minComponentPixels: nat, warmup: int, minConsecutive: int,
    freezeFrames: int, reportSceneChange: bool, maxBoxes: nat)

  predicate ValidConfig(c: Config) { c.minComponentPixels >= 12 && c.maxBoxes >= 1 }

  function Rewarmup(c: Config): int { Max(4, c.warmup / 3) }

  function FastConsecutive(c: Config): int { Max(1, c.minConsecutive - 1) }

  function Required(c: Config, area: nat): int {
    if area >= c.minComponentPixels * 6 then FastConsecutive(c) else c.minConsecutive
  }

  // ---------------------------------------------------------------------------------------------
  // The largest components
  // ---------------------------------------------------------------------------------------------

  function BigEnough(c: Config, components: seq<Component>): (r: seq<Component>)
  {
    if components == [] then []
    else
      var last := components[|components| - 1];
      BigEnough(c, components[..|components| - 1]) + if last.area >= c.minComponentPixels then [last] else []
  }

  predicate NoSmaller(a: Component, b: Component) { a.area >= b.area }

  /** The stable sort, largest first. */
  function ByArea(components: seq<Component>): (r: seq<Component>)
    ensures multiset(r) == multiset(components) && |r| == |components|
  {
    Sorting.Sort(components, NoSmaller)
  }

  function Largest(c: Config, components: seq<Component>): (r: seq<Component>)
    ensures |r| <= c.maxBoxes
  {
    var sorted := ByArea(BigEnough(c, components));
    if |sorted| <= c.maxBoxes then sorted else sorted[..c.maxBoxes]
  }

  method LargestComponents(c: Config, components: seq<Component>) returns (found: seq<Component>)
    ensures found == Largest(c, components)
  {
    found := [];
    for i := 0 to |components|
      invariant found == BigEnough(c, components[..i])
    {
      assert components[..i + 1][..i] == components[..i];
      if components[i].area >= c.minComponentPixels {
        found := found + [components[i]];
      }
    }
    assert components[..|components|] == components;
    found := ByArea(found);
    if |found| > c.maxBoxes {
      found := found[..c.maxBoxes];
    }
  }

  lemma {:induction false} BigEnoughExactly(c: Config, components: seq<Component>, x: Component)
    ensures x in BigEnough(c, components) <==> x in components && x.area >= c.minComponentPixels
  {
    if components != [] {
      var rest := components[..|components| - 1];
      assert components == rest + [components[|components| - 1]];
      BigEnoughExactly(c, rest, x);
    }
  }

  predicate Descending(components: seq<Component>) {
    forall i, j | 0 <= i < j < |components| :: components[i].area >= components[j].area
  }

  lemma ByAreaSorts(components: seq<Component>)
    ensures Descending(ByArea(components))
  {
    Sorting.SortSorts(components, NoSmaller);
    assert forall i, j | 0 <= i < j < |components| :: NoSmaller(ByArea(components)[i], ByArea(components)[j]);
  }

  /** Components of equal area stay in label order. */
  lemma ByAreaIsStable(components: seq<Component>, x: Component)
    ensures Sorting.Alike(ByArea(components), x, NoSmaller) == Sorting.Alike(components, x, NoSmaller)
  {
    Sorting.SortIsStable(components, x, NoSmaller);
  }

  /** Largest first, all big enough, and what was left out is no larger than anything kept. */
  lemma LargestExactly(c: Config, components: seq<Component>)
    requires ValidConfig(c)
    ensures var r := Largest(c, components);
            && Descending(r)
            && (forall x | x in r :: x in components && x.area >= c.minComponentPixels)
            && (forall x | x in components && x.area >= c.minComponentPixels ::
                  x in r || (|r| == c.maxBoxes && forall y | y in r :: y.area >= x.area))
            && (r == [] <==> forall x | x in components :: x.area < c.minComponentPixels)
  {
    hide ByArea, BigEnough;
    var found := BigEnough(c, components);
    var sorted, r := ByArea(found), Largest(c, components);
    ByAreaSorts(found);
    Sorting.SameElements(found, sorted);
    forall x
      ensures x in found <==> x in components && x.area >= c.minComponentPixels
    {
      BigEnoughExactly(c, components, x);
    }
    assert |found| == |sorted|;
    assert r == [] ==> found == [];
    assert found != [] ==> found[0] in found;
    assert r != [] ==> r[0] in r;
  }

  /** The area of the largest component; 0 when there is none. */
  function BestArea(components: seq<Component>): nat {
    if components == [] then 0 else Max(BestArea(components[..|components| - 1]), components[|components| - 1].area)
  }

  lemma {:induction false} BestAreaBounds(components: seq<Component>, x: Component)
    requires x in components
    ensures x.area <= BestArea(components)
  {
    var rest, last := components[..|components| - 1], components[|components| - 1];
    assert components == rest + [last];
    if x in rest {
      BestAreaBounds(rest, x);
    }
  }

  lemma {:induction false} BestAreaReached(components: seq<Component>) returns (x: Component)
    requires components != []
    ensures x in components && x.area == BestArea(components)
  {
    var rest, last := components[..|components| - 1], components[|components| - 1];
    x := last;
    if rest != [] && BestArea(rest) > last.area {
      x := BestAreaReached(rest);
    }
  }

  /** What remains is headed by the largest component, and is nothing exactly when none is big enough. */
  lemma FirstIsBest(c: Config, components: seq<Component>)
    requires ValidConfig(c)
    ensures Largest(c, components) == [] <==> BestArea(components) < c.minComponentPixels
    ensures Largest(c, components) != [] ==> Largest(c, components)[0].area == BestArea(components)
  {
    var r := Largest(c, components);
    LargestExactly(c, components);
    hide Largest, BestArea;
    if components != [] {
      var x := BestAreaReached(components);
      assert x.area >= c.minComponentPixels ==> r != [];
      if r != [] {
        BestAreaBounds(components, r[0]);
      }
    }
  }

  // ---------------------------------------------------------------------------------------------
  // One frame
  // ---------------------------------------------------------------------------------------------

  datatype State = State(created: bool, warmup: int, total: int, hits: int, streak: int)

  datatype Rate = Fast | Frozen | Auto

  datatype Report = Report(components: seq<Component>, sceneChange: bool)

  function Created(total: int): State { State(true, 0, total, 0, 0) }

  function Loaded(c: Config, st: State): State { if st.created then st else Created(c.warmup) }

  function RateOf(c: Config, st: State): Rate {
    if st.warmup < st.total then Fast else if 0 < st.streak <= c.freezeFrames then Frozen else Auto
  }

  function Whole(c: Config, f: Frame): Component { Component(f.pixels, 0, 0, c.width, c.height) }

  /** One `infer` on a loaded detector: the new state and what it reports. */
  function Step(c: Config, st: State, f: Frame): (State, Option<Report>) {
    var warmed := if st.warmup < st.total then st.(warmup := st.warmup + 1) else st;
    var components := Largest(c, f.components);
    if warmed.warmup < warmed.total then (warmed, None)
    else if f.pixels >= f.globalFrom then
      (Created(Rewarmup(c)),
       if !c.reportSceneChange then None
       else Some(Report(if components == [] then [Whole(c, f)] else components, true)))
    else if f.pixels < c.minComponentPixels || components == [] then (warmed.(hits := 0, streak := 0), None)
    else
      var moved := warmed.(hits := warmed.hits + 1, streak := warmed.streak + 1);
      (moved, if moved.hits < Required(c, components[0].area) then None else Some(Report(components, false)))
  }

  class Detector {
    const config: Config
    var created: bool
    var warmupFrames: int
    var warmupTotal: int
    var consecutiveHits: int
    var motionStreak: int

    function View(): State
      reads this
    {
      State(created, warmupFrames, warmupTotal, consecutiveHits, motionStreak)
    }

    constructor (c: Config)
      ensures config == c && View() == State(false, 0, c.warmup, 0, 0)
    {
      config := c;
      created, warmupFrames, warmupTotal, consecutiveHits, motionStreak := false, 0, c.warmup, 0, 0;
    }

    method CreateBackground(total: int)
      modifies this
      ensures View() == Created(total)
    {
      created := true;
      warmupFrames := 0;
      warmupTotal := total;
      consecutiveHits := 0;
      motionStreak := 0;
    }

    method Infer(f: Frame) returns (report: Option<Report>, rate: Rate)
      modifies this
      ensures (View(), report) == Step(config, Loaded(config, old(View())), f)
      ensures rate == RateOf(config, Loaded(config, old(View())))
    {
      hide Largest;
      if !created {
        CreateBackground(config.warmup);
      }
      if warmupFrames < warmupTotal {
        rate := Fast;
        warmupFrames := warmupFrames + 1;
      } else if 0 < motionStreak <= config.freezeFrames {
        rate := Frozen;
      } else {
        rate := Auto;
      }
      if warmupFrames < warmupTotal {
        return None, rate;
      }
      if f.pixels >= f.globalFrom {
        var components := LargestComponents(config, f.components);
        CreateBackground(Rewarmup(config));
        if !config.reportSceneChange {
          return None, rate;
        }
        if components == [] {
          components := [Whole(config, f)];
        }
        return Some(Report(components, true)), rate;
      }
      if f.pixels < config.minComponentPixels {
        consecutiveHits, motionStreak := 0, 0;
        return None, rate;
      }
      var components := LargestComponents(config, f.components);
      if components == [] {
        consecutiveHits, motionStreak := 0, 0;
        return None, rate;
      }
      motionStreak := motionStreak + 1;
      consecutiveHits := consecutiveHits + 1;
      if consecutiveHits < Required(config, components[0].area) {
        return None, rate;
      }
      return Some(Report(components, false)), rate;
    }
  }

  // ---------------------------------------------------------------------------------------------
  // Runs
  // ---------------------------------------------------------------------------------------------

  /** The state before frame `k` of a run. */
  function After(c: Config, frames: seq<Frame>, k: nat): State
    requires k <= |frames|
  {
    if k == 0 then Created(c.warmup) else Step(c, After(c, frames, k - 1), frames[k - 1]).0
  }

  function ReportAt(c: Config, frames: seq<Frame>, k: nat): Option<Report>
    requires k < |frames|
  {
    Step(c, After(c, frames, k), frames[k]).1
  }

  /** The background in force at frame `k`: the frame it was new at, and its warm-up. */
  datatype Background = Background(begin: nat, total: int)

  function BackgroundAt(c: Config, frames: seq<Frame>, k: nat): (b: Background)
    requires k <= |frames|
    ensures b.begin <= k
  {
    if k == 0 then Background(0, c.warmup)
    else
      var b := BackgroundAt(c, frames, k - 1);
      if WarmedUp(b, k - 1) && Global(frames[k - 1]) then Background(k, Max(4, c.warmup / 3)) else b
  }

  /** The length a run must have for a largest component of this area. */
  function Needed(c: Config, area: nat): nat {
    Max(1, if area >= 6 * c.minComponentPixels then c.minConsecutive - 1 else c.minConsecutive)
  }

  /** A background with warm-up `total` is silent for its first `total - 1` frames. */
  predicate WarmedUp(b: Background, k: nat) { k >= b.begin + Max(0, b.total - 1) }

  predicate Global(f: Frame) { f.pixels >= f.globalFrom }

  /** A frame that can confirm movement: enough moving pixels, and one big enough component. */
  predicate Qualifies(c: Config, f: Frame) {
    !Global(f) && f.pixels >= c.minComponentPixels && BestArea(f.components) >= c.minComponentPixels
  }

  /** The last `n` frames before `k` qualify, and the background was warm for all of them. */
  predicate Unbroken(c: Config, frames: seq<Frame>, k: nat, n: nat)
    requires k <= |frames|
  {
    && n <= k
    && (n > 0 ==> WarmedUp(BackgroundAt(c, frames, k), k - n))
    && forall i | k - n <= i < k :: Qualifies(c, frames[i])
  }

  /** What the fields mean before frame `k`; the counters hold the length of the unbroken run. */
  predicate Meaning(c: Config, frames: seq<Frame>, k: nat)
    requires k <= |frames|
  {
    var st, b := After(c, frames, k), BackgroundAt(c, frames, k);
    && st.created && st.total == b.total
    && st.warmup == (if k - b.begin <= b.total then k - b.begin else Max(0, b.total))
    && st.hits == st.streak && 0 <= st.hits
    && Unbroken(c, frames, k, st.hits) && !Unbroken(c, frames, k, st.hits + 1)
  }

  lemma UnbrokenIsWarm(c: Config, frames: seq<Frame>, k: nat, n: nat)
    requires k <= |frames| && Unbroken(c, frames, k, n) && n > 0
    ensures WarmedUp(BackgroundAt(c, frames, k), k)
  {
  }

  lemma UnbrokenNext(c: Config, frames: seq<Frame>, k: nat, n: nat)
    requires k < |frames|
    ensures Unbroken(c, frames, k + 1, n + 1) <==>
            WarmedUp(BackgroundAt(c, frames, k), k) && Qualifies(c, frames[k]) && Unbroken(c, frames, k, n)
    ensures Unbroken(c, frames, k, 0) && Unbroken(c, frames, k + 1, 0)
  {
    if Unbroken(c, frames, k + 1, n + 1) {
      assert Qualifies(c, frames[k]);
    }
  }

  lemma StepMeans(c: Config, frames: seq<Frame>, k: nat)
    requires ValidConfig(c) && k < |frames| && Meaning(c, frames, k)
    ensures Meaning(c, frames, k + 1)
    ensures ReportAt(c, frames, k).Some? <==>
            && WarmedUp(BackgroundAt(c, frames, k), k)
            && if Global(frames[k]) then c.reportSceneChange
               else Qualifies(c, frames[k]) && After(c, frames, k).hits + 1 >= Required(c, BestArea(frames[k].components))
  {
    hide Largest, Unbroken;
    var st, b, f := After(c, frames, k), BackgroundAt(c, frames, k), frames[k];
    FirstIsBest(c, f.components);
    if st.hits > 0 {
      UnbrokenIsWarm(c, frames, k, st.hits);
    }
    HitsMove(c, frames, k);
  }

  /** How one frame moves the length of the unbroken run. */
  lemma HitsMove(c: Config, frames: seq<Frame>, k: nat)
    requires ValidConfig(c) && k < |frames| && Meaning(c, frames, k)
    ensures var n := if WarmedUp(BackgroundAt(c, frames, k), k) && Qualifies(c, frames[k])
                     then After(c, frames, k).hits + 1 else 0;
            Unbroken(c, frames, k + 1, n) && !Unbroken(c, frames, k + 1, n + 1)
  {
    hide Unbroken, After, BackgroundAt, WarmedUp, Qualifies;
    var b, hits := BackgroundAt(c, frames, k), After(c, frames, k).hits;
    if WarmedUp(b, k) && Qualifies(c, frames[k]) {
      UnbrokenNext(c, frames, k, hits);
      UnbrokenNext(c, frames, k, hits + 1);
    } else {
      UnbrokenNext(c, frames, k, 0);
    }
  }

  lemma {:induction false} RunMeans(c: Config, frames: seq<Frame>, k: nat)
    requires ValidConfig(c) && k <= |frames|
    ensures Meaning(c, frames, k)
  {
    if k == 0 {
    } else {
      RunMeans(c, frames, k - 1);
      StepMeans(c, frames, k - 1);
    }
  }

  /** The counters are the length of the longest unbroken run. */
  lemma CountersAreRun(c: Config, frames: seq<Frame>, k: nat, n: nat)
    requires ValidConfig(c) && k <= |frames|
    ensures After(c, frames, k).hits == After(c, frames, k).streak
    ensures Unbroken(c, frames, k, n) <==> n <= After(c, frames, k).hits
  {
    RunMeans(c, frames, k);
    hide After;
  }

  /**
    When a frame is reported. Never during the warm-up, which is the first `total - 1` frames of a background.
    A global change: exactly when the switch is on. Any other frame: exactly when it and the frames before it,
    as many as its largest component requires, qualify without a break on this background.
   */
  lemma ReportsExactly(c: Config, frames: seq<Frame>, k: nat)
    requires ValidConfig(c) && k < |frames|
    ensures ReportAt(c, frames, k).Some? <==>
            && WarmedUp(BackgroundAt(c, frames, k), k)
            && if Global(frames[k]) then c.reportSceneChange
               else Qualifies(c, frames[k])
                    && Unbroken(c, frames, k + 1, Needed(c, BestArea(frames[k].components)))
  {
    hide Largest, Unbroken;
    RunMeans(c, frames, k);
    StepMeans(c, frames, k);
    FirstIsBest(c, frames[k].components);
    if WarmedUp(BackgroundAt(c, frames, k), k) && Qualifies(c, frames[k]) {
      CountersAreRun(c, frames, k + 1, Needed(c, BestArea(frames[k].components)));
    }
  }

  /** What is reported: the largest components; the whole picture only for a global change that left none. */
  lemma ReportShowsLargest(c: Config, frames: seq<Frame>, k: nat)
    requires ValidConfig(c) && k < |frames| && ReportAt(c, frames, k).Some?
    ensures var r, f := ReportAt(c, frames, k).value, frames[k];
            && r.sceneChange == Global(f)
            && r.components != [] && |r.components| <= c.maxBoxes
            && r.components == (if Largest(c, f.components) == [] then [Component(f.pixels, 0, 0, c.width, c.height)]
                                else Largest(c, f.components))
            && (Largest(c, f.components) == [] ==> Global(f))
  {
    hide Largest;
  }

  /** The learning rate is frozen exactly after 1 to `freezeFrames` unbroken frames on a warm background. */
  lemma FrozenExactly(c: Config, frames: seq<Frame>, k: nat)
    requires ValidConfig(c) && k <= |frames|
    ensures RateOf(c, After(c, frames, k)) == Frozen <==>
            c.freezeFrames > 0 && Unbroken(c, frames, k, 1) && !Unbroken(c, frames, k, c.freezeFrames + 1)
  {
    RunMeans(c, frames, k);
    CountersAreRun(c, frames, k, 1);
    CountersAreRun(c, frames, k, Max(0, c.freezeFrames) + 1);
    hide After, Unbroken;
  }

  /**
    And it is fast exactly in the first frames of a background, as many as its warm-up, and left to the background
    model in every other frame.
   */
  lemma LearningRateExactly(c: Config, frames: seq<Frame>, k: nat)
    requires ValidConfig(c) && k <= |frames|
    ensures RateOf(c, After(c, frames, k)) == Fast <==>
            k - BackgroundAt(c, frames, k).begin < BackgroundAt(c, frames, k).total
    ensures RateOf(c, After(c, frames, k)) == Auto <==>
            && k - BackgroundAt(c, frames, k).begin >= BackgroundAt(c, frames, k).total
            && (Unbroken(c, frames, k, 1) ==> c.freezeFrames <= 0 || Unbroken(c, frames, k, c.freezeFrames + 1))
  {
    RunMeans(c, frames, k);
    FrozenExactly(c, frames, k);
    hide After, Unbroken, BackgroundAt;
  }

  /** A reported global change silences every frame of its re-warm-up, at least three of them. */
  lemma SceneChangesAreSpaced(c: Config, frames: seq<Frame>, i: nat, k: nat)
    requires ValidConfig(c) && i < k < |frames|
    requires ReportAt(c, frames, i).Some? && Global(frames[i]) && ReportAt(c, frames, k).Some?
    ensures k - i >= Max(4, c.warmup / 3)
  {
    hide ReportAt, Unbroken, BestArea, Qualifies;
    ReportsExactly(c, frames, i);
    ReportsExactly(c, frames, k);
    assert BackgroundAt(c, frames, i + 1) == Background(i + 1, Max(4, c.warmup / 3));
    hide BackgroundAt, Global;
    BackgroundLater(c, frames, i + 1, k);
  }

  lemma {:induction false} BackgroundLater(c: Config, frames: seq<Frame>, i: nat, k: nat)
    requires i <= k <= |frames|
    ensures var a, b := BackgroundAt(c, frames, i), BackgroundAt(c, frames, k);
            a == b || (b.begin > i && b.total == Max(4, c.warmup / 3) && b.begin > a.begin + Max(0, a.total - 1))
    decreases k
  {
    if i < k {
      BackgroundLater(c, frames, i, k - 1);
    }
  }
}
