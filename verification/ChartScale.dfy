/**
  The vertical scale of a chart and the projections between values and pixels. Numbers are reals: rounding
  of floating point is not part of this model. `None` stands for a value that is no finite number.
 */
module ChartScale {
  import opened Numbers
  import opened Wrappers

  function Ceil(x: real): int { if x == x.Floor as real then x.Floor else x.Floor + 1 }

  /** Products and quotients, named so that proofs can leave them alone. */
  function Times(a: real, b: real): real { a * b }

  function Over(a: real, b: real): real
    requires b > 0.0
  {
    a / b
  }

  lemma TimesOrder(a: real, b: real, factor: real)
    requires factor > 0.0
    ensures a < b <==> Times(a, factor) < Times(b, factor)
    ensures a <= b <==> Times(a, factor) <= Times(b, factor)
  {
    if a < b {
      assert (b - a) * factor > 0.0;
    } else if b < a {
      assert (a - b) * factor > 0.0;
    }
  }

  lemma TimesUnit(a: real, c: real, factor: real)
    ensures Times(0.0, factor) == 0.0 && Times(1.0, factor) == factor
    ensures Times(c, 1.0) == c && Times(c, 0.0) == 0.0
    ensures Times(a + 1.0, factor) == Times(a, factor) + factor
  {
  }

  lemma TimesScaled(a: real, factor: real)
    ensures Times(2.0 * a, factor) == 2.0 * Times(a, factor)
    ensures Times(3.0 * a, factor) == 3.0 * Times(a, factor)
    ensures Times(5.0 * a, factor) == 5.0 * Times(a, factor)
    ensures Times(10.0, factor) == 10.0 * factor
  {
  }

  lemma OverTimes(a: real, b: real)
    requires b > 0.0
    ensures Times(Over(a, b), b) == a && Over(Times(a, b), b) == a && Over(b, b) == 1.0 && Over(0.0, b) == 0.0
  {
    assert a * b / b == a;
  }

  // ---------------------------------------------------------------------------------------------
  // Round steps
  // ---------------------------------------------------------------------------------------------

  /** `10 ** k` */
  function Pow10(k: int): (r: real)
    ensures r > 0.0
    decreases if k >= 0 then k else -k
  {
    if k == 0 then 1.0 else if k > 0 then 10.0 * Pow10(k - 1) else Pow10(k + 1) / 10.0
  }

  /** `Math.floor(Math.log10(x))` */
  function Log10(x: real): (k: int)
    requires x > 0.0
    decreases x < 1.0, if x >= 1.0 then x.Floor else (1.0 / x).Floor
  {
    if x >= 10.0 then TenthSmaller(x); Log10(x / 10.0) + 1
    else if x < 1.0 then InverseSmaller(x); Log10(x * 10.0) - 1
    else 0
  }

  lemma TenthSmaller(x: real)
    requires x >= 10.0
    ensures x / 10.0 >= 1.0 && (x / 10.0).Floor < x.Floor && x.Floor > 0
  {
    assert x / 10.0 <= x - 9.0;
  }

  lemma InverseSmaller(x: real)
    requires 0.0 < x < 1.0
    ensures x * 10.0 > 0.0
    ensures x * 10.0 < 1.0 ==> 0 <= (1.0 / (x * 10.0)).Floor < (1.0 / x).Floor
  {
    if x * 10.0 < 1.0 {
      var y := 1.0 / (x * 10.0);
      assert 1.0 / x == 10.0 * y;
      assert y > 1.0;
    }
  }

  lemma {:induction false} Log10Exactly(x: real)
    requires x > 0.0
    ensures Pow10(Log10(x)) <= x < 10.0 * Pow10(Log10(x))
    decreases x < 1.0, if x >= 1.0 then x.Floor else (1.0 / x).Floor
  {
    if x >= 10.0 {
      TenthSmaller(x);
      Log10Exactly(x / 10.0);
    } else if x < 1.0 {
      InverseSmaller(x);
      Log10Exactly(x * 10.0);
    }
  }

  function Multiplier(normalized: real): real {
    if normalized < 1.5 then 1.0 else if normalized < 3.0 then 2.0 else if normalized < 7.0 then 5.0 else 10.0
  }

  /** `niceStep` */
  function NiceStep(span: real, targetTicks: int): (step: real)
    ensures step > 0.0
  {
    var raw := Over(span, (if targetTicks < 1 then 1 else targetTicks) as real);
    if raw <= 0.0 then 1.0
    else
      var magnitude := Pow10(Log10(raw));
      TimesOrder(0.0, Multiplier(Over(raw, magnitude)), magnitude);
      TimesUnit(0.0, 0.0, magnitude);
      Times(Multiplier(Over(raw, magnitude)), magnitude)
  }

  /** The step is 1, 2, 5 or 10 times a power of ten, and between two and five thirds of the asked one. */
  lemma NiceStepIsClose(span: real, targetTicks: int)
    requires span > 0.0 && targetTicks >= 1
    ensures var raw, step := Over(span, targetTicks as real), NiceStep(span, targetTicks);
            && 2.0 * raw < 3.0 * step && 3.0 * step <= 5.0 * raw
            && exists k :: step == Times(1.0, Pow10(k)) || step == Times(2.0, Pow10(k))
                        || step == Times(5.0, Pow10(k)) || step == Times(10.0, Pow10(k))
  {
    var raw := Over(span, targetTicks as real);
    Log10Exactly(raw);
    hide Pow10, Log10, Times, Over, Multiplier;
    var magnitude := Pow10(Log10(raw));
    var n := Over(raw, magnitude);
    Normalized(raw, magnitude);
    var m := Multiplier(n);
    TimesOrder(2.0 * n, 3.0 * m, magnitude);
    TimesOrder(3.0 * m, 5.0 * n, magnitude);
    TimesScaled(n, magnitude);
    TimesScaled(m, magnitude);
    assert NiceStep(span, targetTicks) == Times(m, Pow10(Log10(raw)));
  }

  lemma Normalized(raw: real, magnitude: real)
    requires 0.0 < magnitude <= raw < 10.0 * magnitude
    ensures 1.0 <= Over(raw, magnitude) < 10.0 && Times(Over(raw, magnitude), magnitude) == raw
  {
    OverTimes(raw, magnitude);
    TimesUnit(0.0, 0.0, magnitude);
    TimesScaled(0.0, magnitude);
    hide Times, Over;
    TimesOrder(1.0, Over(raw, magnitude), magnitude);
    TimesOrder(Over(raw, magnitude), 10.0, magnitude);
  }

  /** Which of them it is: the asked step lies between two powers of ten and is taken to the nearer of 1, 2, 5 and 10 of the lower. */
  lemma NiceStepExactly(span: real, targetTicks: int, raw: real) returns (unit: real)
    requires span > 0.0 && targetTicks >= 1 && raw * targetTicks as real == span
    ensures exists k :: unit == Pow10(k)
    ensures unit <= raw < 10.0 * unit
    ensures NiceStep(span, targetTicks) ==
            if raw < 1.5 * unit then unit else if raw < 3.0 * unit then 2.0 * unit else if raw < 7.0 * unit then 5.0 * unit else 10.0 * unit
    ensures NiceStep(0.0, targetTicks) == 1.0
  {
    TimesIsProduct(raw, targetTicks as real);
    OverTimes(raw, targetTicks as real);
    OverTimes(0.0, targetTicks as real);
    TimesUnit(0.0, 0.0, targetTicks as real);
    hide Pow10, Log10, Times, Over, Multiplier;
    assert Over(span, targetTicks as real) == raw;
    TimesOrder(0.0, raw, targetTicks as real);
    Log10Exactly(raw);
    unit := Pow10(Log10(raw));
    Normalized(raw, unit);
    MultiplierScaled(Over(raw, unit), raw, unit);
  }

  lemma MultiplierScaled(n: real, raw: real, unit: real)
    requires unit > 0.0 && Times(n, unit) == raw
    ensures Times(Multiplier(n), unit) ==
            if raw < 1.5 * unit then unit else if raw < 3.0 * unit then 2.0 * unit else if raw < 7.0 * unit then 5.0 * unit else 10.0 * unit
  {
    TimesOrder(n, 1.5, unit);
    TimesOrder(n, 3.0, unit);
    TimesOrder(n, 7.0, unit);
    assert Times(1.5, unit) == 1.5 * unit && Times(3.0, unit) == 3.0 * unit && Times(7.0, unit) == 7.0 * unit;
  }

  // ---------------------------------------------------------------------------------------------
  // The scale
  // ---------------------------------------------------------------------------------------------

  datatype Options = Options(
    min: Option<real>, max: Option<real>, includeZero: bool, ticks: Option<int>, nice: bool, integer: bool)

  datatype Scale = Scale(min: real, max: real, span: real, step: real, ticks: seq<real>)

  function TargetTicks(o: Options): (n: int)
  {
    if o.ticks.None? then 4 else if o.ticks.value < 2 then 2 else o.ticks.value
  }

  function StepFor(o: Options, span: real): (step: real)
    ensures step > 0.0
  {
    var raw := NiceStep(span, TargetTicks(o));
    if !o.integer then raw else if Ceil(raw) < 1 then 1.0 else Ceil(raw) as real
  }

  function Finite(values: seq<Option<real>>): seq<real> {
    if values == [] then []
    else
      var last := values[|values| - 1];
      Finite(values[..|values| - 1]) + if last.Some? then [last.value] else []
  }

  function Least(values: seq<real>): real
    requires values != []
  {
    if |values| == 1 then values[0] else MinR(Least(values[..|values| - 1]), values[|values| - 1])
  }

  function Greatest(values: seq<real>): real
    requires values != []
  {
    if |values| == 1 then values[0] else MaxR(Greatest(values[..|values| - 1]), values[|values| - 1])
  }

  datatype Bounds = Bounds(min: real, max: real)

  /** The bounds before they are pulled apart: of the values, of zero, or as forced. */
  function Asked(values: seq<real>, o: Options): Bounds {
    var low := if values == [] then 0.0 else Least(values);
    var high := if values == [] then 0.0 else Greatest(values);
    var (a, b) := if o.includeZero then (MinR(low, 0.0), MaxR(high, 0.0)) else (low, high);
    Bounds(if o.min.Some? then o.min.value else a, if o.max.Some? then o.max.value else b)
  }

  function PulledApart(b: Bounds): Bounds {
    if b.max != b.min then b
    else if b.max == 0.0 then Bounds(b.min, 1.0)
    else
      var pad := (if b.max < 0.0 then -b.max else b.max) / 2.0;
      Bounds(b.min - pad, b.max + pad)
  }

  function RoundedOut(b: Bounds, o: Options): Bounds {
    if !o.nice then b
    else
      var step := StepFor(o, b.max - b.min);
      Bounds(if o.min.None? then Times(Over(b.min, step).Floor as real, step) else b.min,
             if o.max.None? then Times(Ceil(Over(b.max, step)) as real, step) else b.max)
  }

  function Guarded(b: Bounds): Bounds { if b.max > b.min then b else Bounds(b.min, b.min + 1.0) }

  function FinalBounds(values: seq<real>, o: Options): Bounds { Guarded(RoundedOut(PulledApart(Asked(values, o)), o)) }

  /** `round(x, 6)` */
  function Round6(x: real): real { (x * 1000000.0 + 0.5).Floor as real / 1000000.0 }

  /** How many ticks fit below the top, from the `n`-th on; never more than 64 in all. */
  function TickCount(min: real, max: real, step: real, n: nat): (count: nat)
    requires step > 0.0 && n <= 64
    decreases 64 - n
  {
    if n < 64 && min + Times(n as real, step) <= max + step / 1000.0 then TickCount(min, max, step, n + 1) else n
  }

  function TickAt(min: real, step: real, i: nat): real { Round6(min + Times(i as real, step)) }

  function Ticks(min: real, max: real, step: real): (ticks: seq<real>)
    requires step > 0.0
  {
    var body := seq(TickCount(min, max, step, 0), i requires 0 <= i => TickAt(min, step, i));
    if body != [] && body[|body| - 1] < max then body + [Round6(max)] else body
  }

  method KeepFinite(values: seq<Option<real>>) returns (finite: seq<real>)
    ensures finite == Finite(values)
  {
    finite := [];
    for i := 0 to |values|
      invariant finite == Finite(values[..i])
    {
      assert values[..i + 1][..i] == values[..i];
      if values[i].Some? {
        finite := finite + [values[i].value];
      }
    }
    assert values[..|values|] == values;
  }

  method AskBounds(finite: seq<real>, o: Options) returns (min: real, max: real)
    ensures Bounds(min, max) == Asked(finite, o)
  {
    hide Least, Greatest;
    min, max := 0.0, 0.0;
    if finite != [] {
      min, max := Least(finite), Greatest(finite);
    }
    if o.includeZero {
      min, max := MinR(min, 0.0), MaxR(max, 0.0);
    }
    if o.min.Some? {
      min := o.min.value;
    }
    if o.max.Some? {
      max := o.max.value;
    }
  }

  method ComputeScale(values: seq<Option<real>>, o: Options) returns (scale: Scale)
    ensures var b := FinalBounds(Finite(values), o);
            && scale.min == b.min && scale.max == b.max && scale.span == b.max - b.min
            && scale.step == StepFor(o, scale.span) && scale.ticks == Ticks(b.min, b.max, scale.step)
  {
    hide Times, Over, StepFor, Ceil, Ticks, Asked;
    var finite := KeepFinite(values);
    var min, max := AskBounds(finite, o);
    if max == min {
      if max == 0.0 {
        max := 1.0;
      } else {
        var pad := (if max < 0.0 then -max else max) / 2.0;
        min := min - pad;
        max := max + pad;
      }
    }
    assert Bounds(min, max) == PulledApart(Asked(finite, o));
    if o.nice {
      var step := StepFor(o, max - min);
      if o.max.None? {
        max := Times(Ceil(Over(max, step)) as real, step);
      }
      if o.min.None? {
        min := Times(Over(min, step).Floor as real, step);
      }
    }
    if !(max > min) {
      max := min + 1.0;
    }
    var step := StepFor(o, max - min);
    var ticks := MakeTicks(min, max, step);
    return Scale(min, max, max - min, step, ticks);
  }

  method MakeTicks(min: real, max: real, step: real) returns (ticks: seq<real>)
    requires step > 0.0
    ensures ticks == Ticks(min, max, step)
  {
    hide Times, Round6;
    ticks := [];
    TimesUnit(0.0, 0.0, step);
    var value := min;
    while value <= max + step / 1000.0 && |ticks| < 64
      invariant |ticks| <= 64 && value == min + Times(|ticks| as real, step)
      invariant TickCount(min, max, step, 0) == TickCount(min, max, step, |ticks|)
      invariant forall i | 0 <= i < |ticks| :: ticks[i] == TickAt(min, step, i)
      decreases 64 - |ticks|
    {
      TimesUnit(|ticks| as real, 0.0, step);
      ticks := ticks + [Round6(value)];
      value := value + step;
    }
    assert ticks == seq(TickCount(min, max, step, 0), i requires 0 <= i => TickAt(min, step, i));
    if ticks != [] && ticks[|ticks| - 1] < max {
      ticks := ticks + [Round6(max)];
    }
  }

  lemma {:induction false} LeastAndGreatest(values: seq<real>, v: real)
    requires v in values
    ensures Least(values) <= v <= Greatest(values)
  {
    var n := |values| - 1;
    if n > 0 && v in values[..n] {
      LeastAndGreatest(values[..n], v);
    } else {
      assert v == values[n];
    }
  }

  lemma RoundsOut(x: real, step: real)
    requires step > 0.0
    ensures Times(Over(x, step).Floor as real, step) <= x <= Times(Ceil(Over(x, step)) as real, step)
  {
    hide Times, Over;
    var q := Over(x, step);
    OverTimes(x, step);
    TimesOrder(q.Floor as real, q, step);
    TimesOrder(q, Ceil(q) as real, step);
  }

  /**
    The span is positive whatever is forced, and no value falls off a side that is not forced;
    nor does zero, when it is to be included.
   */
  lemma ScaleCovers(values: seq<real>, o: Options, v: real)
    requires v in values || (o.includeZero && v == 0.0)
    ensures var b := FinalBounds(values, o);
            && b.max > b.min
            && (o.min.None? ==> b.min <= v)
            && (o.max.None? ==> v <= b.max)
  {
    if v in values {
      LeastAndGreatest(values, v);
    }
    var asked := Asked(values, o);
    assert o.min.None? ==> asked.min <= v;
    assert o.max.None? ==> v <= asked.max;
    hide Asked;
    OutKeeps(PulledApart(asked), o);
    hide RoundedOut;
  }

  lemma OutKeeps(b: Bounds, o: Options)
    ensures RoundedOut(b, o).min <= b.min && b.max <= RoundedOut(b, o).max
  {
    hide Times, Over, StepFor, Ceil;
    var step := StepFor(o, b.max - b.min);
    RoundsOut(b.min, step);
    RoundsOut(b.max, step);
  }

  /** The span is positive even for an empty series. */
  lemma SpanIsPositive(values: seq<real>, o: Options)
    ensures FinalBounds(values, o).max > FinalBounds(values, o).min
  {
    hide RoundedOut, PulledApart, Asked;
  }

  /**
    A forced lower bound is the bound of the scale except when the bounds coincide away from zero. A forced
    upper bound is, exactly when it is above the lower bound asked for, or below it but above the whole number
    that a lower bound not forced is rounded down to.
   */
  lemma ForcedHonouredExactly(values: seq<real>, o: Options)
    ensures var asked, b := Asked(values, o), FinalBounds(values, o);
            && (o.min.Some? ==> (b.min == o.min.value <==> !(asked.max == asked.min && asked.max != 0.0)))
            && (o.max.Some? ==>
                  (b.max == o.max.value <==>
                    asked.max > asked.min
                    || (asked.max < asked.min && o.nice && o.min.None? && asked.max > asked.min.Floor as real)))
  {
    hide StepFor, Ceil, Least, Greatest, Times, Over;
    var asked := Asked(values, o);
    OutKeeps(asked, o);
    if asked.max < asked.min {
      InvertedStep(o, asked.max - asked.min);
      UnitRounding(asked.min);
    }
  }

  /** Bounds the wrong way round ask for no step, and get 1. */
  lemma InvertedStep(o: Options, span: real)
    requires span < 0.0
    ensures StepFor(o, span) == 1.0
  {
    var t := TargetTicks(o) as real;
    assert Over(span, t) < 0.0 by {
      assert Over(span, t) * t == span;
    }
  }

  lemma UnitRounding(x: real)
    ensures Times(Over(x, 1.0).Floor as real, 1.0) == x.Floor as real
  {
  }

  lemma {:induction false} LeastAndGreatestReached(values: seq<real>)
    requires values != []
    ensures Least(values) in values && Greatest(values) in values
  {
    if |values| > 1 {
      LeastAndGreatestReached(values[..|values| - 1]);
    }
  }

  /** The bounds asked for: as forced, and otherwise the least and the greatest of the values, and of zero if it is included. */
  lemma AskedExactly(values: seq<real>, o: Options, v: real)
    ensures var asked := Asked(values, o);
            && (o.min.Some? ==> asked.min == o.min.value) && (o.max.Some? ==> asked.max == o.max.value)
            && (o.min.None? ==>
                  && (asked.min in values || (asked.min == 0.0 && (o.includeZero || values == [])))
                  && (v in values || (v == 0.0 && o.includeZero) ==> asked.min <= v))
            && (o.max.None? ==>
                  && (asked.max in values || (asked.max == 0.0 && (o.includeZero || values == [])))
                  && (v in values || (v == 0.0 && o.includeZero) ==> v <= asked.max))
  {
    if values != [] {
      LeastAndGreatestReached(values);
    }
    if v in values {
      LeastAndGreatest(values, v);
    }
    hide Least, Greatest;
  }

  /** The step: the round one for the number of ticks asked for, 4 unless given and at least 2; whole numbers are rounded up, to at least 1. */
  lemma StepExactly(o: Options, span: real, ticks: int)
    requires ticks == if o.ticks.None? then 4 else if o.ticks.value < 2 then 2 else o.ticks.value
    ensures !o.integer ==> StepFor(o, span) == NiceStep(span, ticks)
    ensures o.integer ==>
              var raw, step := NiceStep(span, ticks), StepFor(o, span);
              && step == step.Floor as real && step >= 1.0 && step >= raw && (step == 1.0 || step - 1.0 < raw)
  {
    hide NiceStep;
  }

  predicate IsMultiple(x: real, n: int, step: real) { x == n as real * step }

  lemma TimesIsProduct(a: real, b: real)
    ensures Times(a, b) == a * b
  {
  }

  /** The multiples of the step next to a value, below and above. */
  lemma NextMultiples(x: real, step: real)
    requires step > 0.0
    ensures var low, high := Times(Over(x, step).Floor as real, step), Times(Ceil(Over(x, step)) as real, step);
            && low <= x < low + step && high - step < x <= high
            && (exists n: int :: IsMultiple(low, n, step)) && exists n: int :: IsMultiple(high, n, step)
  {
    RoundsOut(x, step);
    hide Times, Over;
    var q := Over(x, step);
    OverTimes(x, step);
    TimesOrder(q, q.Floor as real + 1.0, step);
    TimesUnit(q.Floor as real, 0.0, step);
    var c := Ceil(q) as real;
    TimesOrder(c - 1.0, q, step);
    TimesUnit(c - 1.0, 0.0, step);
    TimesIsProduct(q.Floor as real, step);
    TimesIsProduct(c, step);
    assert IsMultiple(Times(q.Floor as real, step), q.Floor, step) && IsMultiple(Times(c, step), Ceil(q), step);
  }

  /**
    The bounds of the scale. Bounds that coincide are pulled apart, from zero to one and otherwise by half their size;
    with round bounds a side that is not forced goes out to the next multiple of the step and no further; and bounds
    the wrong way round are one apart.
   */
  lemma BoundsExactly(values: seq<real>, o: Options, p: real, q: real) returns (low: real, high: real)
    requires var asked := Asked(values, o);
             if asked.min != asked.max then p == asked.min && q == asked.max
             else if asked.max == 0.0 then p == 0.0 && q == 1.0
             else p == asked.min - (if asked.max < 0.0 then -asked.max else asked.max) / 2.0
                  && q == asked.max + (if asked.max < 0.0 then -asked.max else asked.max) / 2.0
    ensures FinalBounds(values, o) == if low < high then Bounds(low, high) else Bounds(low, low + 1.0)
    ensures !o.nice || o.min.Some? ==> low == p
    ensures !o.nice || o.max.Some? ==> high == q
    ensures var step := StepFor(o, q - p);
            && (o.nice && o.min.None? ==> low <= p < low + step && exists n: int :: IsMultiple(low, n, step))
            && (o.nice && o.max.None? ==> high - step < q <= high && exists n: int :: IsMultiple(high, n, step))
  {
    hide Asked, RoundedOut;
    low, high := RoundedExactly(p, q, o);
    assert PulledApart(Asked(values, o)) == Bounds(p, q);
  }

  lemma RoundedExactly(p: real, q: real, o: Options) returns (low: real, high: real)
    ensures RoundedOut(Bounds(p, q), o) == Bounds(low, high)
    ensures !o.nice || o.min.Some? ==> low == p
    ensures !o.nice || o.max.Some? ==> high == q
    ensures var step := StepFor(o, q - p);
            && (o.nice && o.min.None? ==> low <= p < low + step && exists n: int :: IsMultiple(low, n, step))
            && (o.nice && o.max.None? ==> high - step < q <= high && exists n: int :: IsMultiple(high, n, step))
  {
    hide StepFor, Times, Over, Ceil, IsMultiple;
    var step := StepFor(o, q - p);
    NextMultiples(p, step);
    NextMultiples(q, step);
    low, high := RoundedOut(Bounds(p, q), o).min, RoundedOut(Bounds(p, q), o).max;
  }

  // ---------------------------------------------------------------------------------------------
  // Ticks
  // ---------------------------------------------------------------------------------------------

  /** The `j`-th regular tick is not above the top, but for a thousandth of a step. */
  predicate Fits(min: real, max: real, step: real, j: nat) { min + Times(j as real, step) <= max + step / 1000.0 }

  /** A regular tick below one that fits fits. */
  lemma FitsBelow(min: real, max: real, step: real, i: nat, j: nat)
    requires step > 0.0 && i <= j && Fits(min, max, step, j)
    ensures Fits(min, max, step, i)
  {
    hide Times;
    TimesOrder(i as real, j as real, step);
  }

  /** The loop counts the ticks that fit, and stops at 64. */
  lemma {:induction false} TickCountExactly(min: real, max: real, step: real, n: nat, j: nat)
    requires step > 0.0 && n <= j < 64
    ensures j < TickCount(min, max, step, n) <==> Fits(min, max, step, j)
    ensures n <= TickCount(min, max, step, n) <= 64
    decreases 64 - n
  {
    hide Times;
    if Fits(min, max, step, n) {
      if n < j {
        TickCountExactly(min, max, step, n + 1, j);
      }
      CountGrows(min, max, step, n + 1);
    } else if Fits(min, max, step, j) {
      FitsBelow(min, max, step, n, j);
    }
  }

  lemma {:induction false} CountGrows(min: real, max: real, step: real, n: nat)
    requires step > 0.0 && n <= 64
    ensures n <= TickCount(min, max, step, n) <= 64
    decreases 64 - n
  {
    if n < 64 && Fits(min, max, step, n) {
      CountGrows(min, max, step, n + 1);
    }
  }

  lemma Millionth(k: int) returns (q: real)
    ensures q == k as real / 1000000.0 && q * 1000000.0 == k as real
  {
    q := k as real / 1000000.0;
  }

  lemma Round6Near(x: real)
    ensures -0.0000005 <= Round6(x) - x <= 0.0000005
  {
    var k := (x * 1000000.0 + 0.5).Floor;
    var q := Millionth(k);
    assert k as real <= x * 1000000.0 + 0.5 < k as real + 1.0;
  }

  lemma Round6Order(x: real, y: real)
    requires x <= y
    ensures Round6(x) <= Round6(y)
  {
    var k, m := (x * 1000000.0 + 0.5).Floor, (y * 1000000.0 + 0.5).Floor;
    assert k <= m;
    var p := Millionth(k);
    var q := Millionth(m);
  }

  lemma Round6Twice(x: real)
    ensures Round6(Round6(x)) == Round6(x)
  {
    var k := (x * 1000000.0 + 0.5).Floor;
    var q := Millionth(k);
    assert (k as real + 0.5).Floor == k;
  }

  /** Rounding keeps the order, even of a rounded and a plain number. */
  lemma Round6Keeps(x: real, y: real)
    ensures x <= y ==> Round6(x) <= Round6(y)
    ensures Round6(x) <= y ==> Round6(x) <= Round6(y)
    ensures x <= Round6(y) ==> Round6(x) <= Round6(y)
    ensures -0.0000005 <= Round6(x) - x <= 0.0000005
  {
    hide Round6;
    Round6Near(x);
    Round6Twice(x);
    Round6Twice(y);
    if x <= y {
      Round6Order(x, y);
    }
    if Round6(x) <= y {
      Round6Order(Round6(x), y);
    }
    if x <= Round6(y) {
      Round6Order(x, Round6(y));
    }
  }

  /**
    The axis begins at the rounded bottom and ends at or above the rounded top; its ticks ascend and are the
    regular ones that fit, each rounded, and at most one more at the top; none is missing exactly when the
    sixty-fifth would not fit.
   */
  lemma TicksExactly(min: real, max: real, step: real, i: nat, j: nat)
    requires step > 0.0 && min < max
    ensures var ticks, n := Ticks(min, max, step), TickCount(min, max, step, 0);
            && 1 <= n <= 64 && n <= |ticks| <= n + 1
            && ticks[0] == Round6(min) && Round6(max) <= ticks[|ticks| - 1]
            && (i < n ==> Fits(min, max, step, i) && Distance(ticks[i], min + Times(i as real, step)) <= 0.0000005)
            && (|ticks| == n + 1 ==> ticks[n] == Round6(max))
            && (i < j < |ticks| ==> ticks[i] <= ticks[j])
            && (Fits(min, max, step, j) && j >= n ==> Fits(min, max, step, 64))
            && (Fits(min, max, step, 64) ==> n == 64)
  {
    hide Times, Round6;
    TimesUnit(0.0, 0.0, step);
    CountsWhatFits(min, max, step, i);
    CountsWhatFits(min, max, step, j);
    var n := TickCount(min, max, step, 0);
    if i < j < |Ticks(min, max, step)| {
      TicksAscend(min, max, step, i, j);
    }
    Round6Keeps(min + Times(i as real, step), 0.0);
    Round6Keeps(max, min + Times((n - 1) as real, step));
    hide Fits, TickCount;
  }

  lemma TicksAscend(min: real, max: real, step: real, i: nat, j: nat)
    requires step > 0.0 && i < j < |Ticks(min, max, step)|
    ensures Ticks(min, max, step)[i] <= Ticks(min, max, step)[j]
  {
    hide Times, Round6, TickCount;
    var n := TickCount(min, max, step, 0);
    var last := if j < n then j else n - 1;
    TimesOrder(i as real, last as real, step);
    Round6Keeps(min + Times(i as real, step), min + Times(last as real, step));
    Round6Keeps(min + Times(last as real, step), max);
  }

  /** The regular ticks shown are those that fit, but for the ceiling. */
  lemma CountsWhatFits(min: real, max: real, step: real, j: nat)
    requires step > 0.0 && min < max
    ensures var n := TickCount(min, max, step, 0);
            && 1 <= n <= 64
            && (j < n ==> Fits(min, max, step, j))
            && (Fits(min, max, step, j) && j >= n ==> Fits(min, max, step, 64))
            && (Fits(min, max, step, 64) ==> n == 64)
  {
    hide Times;
    var n := TickCount(min, max, step, 0);
    CountGrows(min, max, step, 0);
    TimesUnit(0.0, 0.0, step);
    CountOf(min, max, step, 0);
    CountOf(min, max, step, j);
    CountOf(min, max, step, 63);
    CountOf(min, max, step, n);
    hide TickCount;
    if Fits(min, max, step, 64) {
      FitsBelow(min, max, step, 63, 64);
    }
    if Fits(min, max, step, j) && j >= n {
      FitsBelow(min, max, step, n, j);
    }
  }

  lemma CountOf(min: real, max: real, step: real, j: nat)
    requires step > 0.0
    ensures j < 64 ==> (j < TickCount(min, max, step, 0) <==> Fits(min, max, step, j))
  {
    if j < 64 {
      TickCountExactly(min, max, step, 0, j);
    }
  }

  /** With 2 to 41 ticks asked for none is ever missing. */
  lemma TicksReachTop(min: real, max: real, o: Options)
    requires max > min && TargetTicks(o) <= 41
    ensures !Fits(min, max, StepFor(o, max - min), 64)
  {
    var step := StepFor(o, max - min);
    StepIsLarge(o, max - min);
    assert Times(64.0, step) == 64.0 * step;
  }

  /** Forty-one ticks at most means that 61.5 steps exceed the span. */
  lemma StepIsLarge(o: Options, span: real)
    requires span > 0.0 && TargetTicks(o) <= 41
    ensures 123.0 * StepFor(o, span) > 2.0 * span
  {
    var t := TargetTicks(o) as real;
    var raw, step := Over(span, t), NiceStep(span, TargetTicks(o));
    NiceStepIsClose(span, TargetTicks(o));
    hide Times, Over, NiceStep;
    OverTimes(span, t);
    TimesScaled(raw, t);
    TimesOrder(2.0 * raw, 3.0 * step, t);
    FortyOne(3.0 * step, t);
  }

  lemma FortyOne(a: real, t: real)
    requires a > 0.0 && 0.0 <= t <= 41.0
    ensures Times(a, t) <= 41.0 * a
  {
    assert a * (41.0 - t) >= 0.0;
  }

  // ---------------------------------------------------------------------------------------------
  // Projections
  // ---------------------------------------------------------------------------------------------

  function ProjectY(value: Option<real>, b: Bounds, height: real): (y: real) {
    var plot := MaxR(0.0, height);
    if b.max - b.min <= 0.0 || value.None? then plot
    else
      var clamped := MinR(b.max, MaxR(b.min, value.value));
      plot - Times(Over(clamped - b.min, b.max - b.min), plot)
  }

  function ProjectX(index: int, count: int, width: real): (x: real) {
    var plot := MaxR(0.0, width);
    var position := if index < 0 then 0 else index;
    if count <= 1 then plot / 2.0
    else Times(Over((if position < count - 1 then position else count - 1) as real, (count - 1) as real), plot)
  }

  /** `Math.round` */
  function RoundHalfUp(x: real): int { (x + 0.5).Floor }

  function NearestPointIndex(count: nat, ratio: real): int {
    if count == 0 then -1 else RoundHalfUp(Times(MinR(1.0, MaxR(0.0, ratio)), (count - 1) as real))
  }

  lemma Share(a: real, b: real, span: real, plot: real)
    requires 0.0 <= a <= b <= span && span > 0.0 && plot >= 0.0
    ensures 0.0 <= Times(Over(a, span), plot) <= Times(Over(b, span), plot) <= plot
    ensures plot > 0.0 && a < b ==> Times(Over(a, span), plot) < Times(Over(b, span), plot)
  {
    hide Times, Over;
    var p, q := Over(a, span), Over(b, span);
    OverTimes(a, span);
    OverTimes(b, span);
    TimesUnit(0.0, 0.0, span);
    TimesOrder(0.0, p, span);
    TimesOrder(p, q, span);
    TimesOrder(q, 1.0, span);
    TimesUnit(0.0, p, plot);
    TimesUnit(0.0, q, plot);
    if plot > 0.0 {
      TimesOrder(0.0, p, plot);
      TimesOrder(p, q, plot);
      TimesOrder(q, 1.0, plot);
    }
  }

  /** The vertical projection lands on the plot, turns the order round, and is strict inside the scale. */
  lemma ProjectYReverses(u: real, v: real, b: Bounds, height: real)
    requires b.max > b.min && height >= 0.0 && u <= v
    ensures 0.0 <= ProjectY(Some(v), b, height) <= ProjectY(Some(u), b, height) <= height
    ensures height > 0.0 && b.min <= u < v <= b.max ==> ProjectY(Some(v), b, height) < ProjectY(Some(u), b, height)
    ensures ProjectY(Some(b.min), b, height) == height && ProjectY(Some(b.max), b, height) == 0.0
  {
    hide Times, Over;
    var span := b.max - b.min;
    Share(MinR(b.max, MaxR(b.min, u)) - b.min, MinR(b.max, MaxR(b.min, v)) - b.min, span, height);
    OverTimes(0.0, span);
    TimesUnit(0.0, 0.0, height);
  }

  /** The vertical projection is linear in between, takes no value for the bottom and clamps what lies outside. */
  lemma ProjectYExactly(v: real, b: Bounds, height: real)
    requires b.max > b.min && height >= 0.0
    ensures b.min <= v <= b.max ==>
              (height - ProjectY(Some(v), b, height)) * (b.max - b.min) == (v - b.min) * height
    ensures v < b.min ==> ProjectY(Some(v), b, height) == height
    ensures v > b.max ==> ProjectY(Some(v), b, height) == 0.0
    ensures ProjectY(None, b, height) == height
  {
    hide Times, Over;
    var span := b.max - b.min;
    OverTimes(v - b.min, span);
    OverTimes(0.0, span);
    TimesUnit(0.0, 0.0, height);
    SwapTimes(Over(v - b.min, span), height, span);
    TimesIsProduct(Times(Over(v - b.min, span), height), span);
    TimesIsProduct(v - b.min, height);
  }

  lemma SwapTimes(a: real, b: real, c: real)
    ensures Times(Times(a, b), c) == Times(Times(a, c), b)
  {
  }

  /** The horizontal projection spreads the points evenly from edge to edge; a single one stands in the middle. */
  lemma ProjectXExactly(index: nat, count: int, width: real)
    requires width >= 0.0
    ensures count <= 1 ==> ProjectX(index, count, width) == width / 2.0
    ensures count > 1 ==>
              ProjectX(index, count, width) * (count - 1) as real == Min(index, count - 1) as real * width
  {
    hide Times, Over;
    if count > 1 {
      var n := (count - 1) as real;
      OverTimes(Min(index, count - 1) as real, n);
      SwapTimes(Over(Min(index, count - 1) as real, n), width, n);
      TimesIsProduct(Times(Over(Min(index, count - 1) as real, n), width), n);
      TimesIsProduct(Min(index, count - 1) as real, width);
    }
  }

  /** Pointing at a point finds it: the horizontal projection and the nearest index undo each other. */
  lemma NearestInvertsProjection(index: nat, count: nat, width: real)
    requires index < count && count >= 2 && width > 0.0
    ensures 0.0 <= ProjectX(index, count, width) <= width
    ensures NearestPointIndex(count, Over(ProjectX(index, count, width), width)) == index
  {
    hide Times, Over;
    var n := (count - 1) as real;
    Share(index as real, n, n, width);
    OverTimes(index as real, n);
    var share := Over(index as real, n);
    OverTimes(share, width);
    TimesUnit(0.0, 0.0, n);
    TimesOrder(0.0, share, n);
    TimesOrder(share, 1.0, n);
  }

  /** What is found is a point at least as near as any other. */
  lemma NearestIsNearest(count: nat, ratio: real, other: nat)
    requires other < count
    ensures var found := NearestPointIndex(count, ratio);
            var position := Times(MinR(1.0, MaxR(0.0, ratio)), (count - 1) as real);
            && 0 <= found < count
            && Distance(position, found as real) <= Distance(position, other as real)
            && (Distance(position, found as real) == Distance(position, other as real) ==> other <= found)
  {
    hide Times;
    var clamped, n := MinR(1.0, MaxR(0.0, ratio)), (count - 1) as real;
    TimesUnit(0.0, clamped, n);
    if n > 0.0 {
      TimesOrder(0.0, clamped, n);
      TimesOrder(clamped, 1.0, n);
    }
    RoundsNearest(Times(clamped, n), count, other);
  }

  function Distance(a: real, b: real): real { if a < b then b - a else a - b }

  lemma RoundsNearest(position: real, count: nat, other: nat)
    requires 0.0 <= position <= (count - 1) as real && other < count
    ensures 0 <= RoundHalfUp(position) < count
    ensures Distance(position, RoundHalfUp(position) as real) <= Distance(position, other as real)
    ensures Distance(position, RoundHalfUp(position) as real) == Distance(position, other as real) ==> other <= RoundHalfUp(position)
  {
    var found := RoundHalfUp(position);
    assert found as real <= position + 0.5 < found as real + 1.0;
    assert other < found ==> other as real <= found as real - 1.0;
    assert other > found ==> other as real >= found as real + 1.0;
  }
}
