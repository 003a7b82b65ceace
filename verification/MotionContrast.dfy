/**
  The fast path of the contrast normalisation.
  A percentile read off a histogram must be the percentile of the sorted pixels, for every picture: the
  sensitivity of all cameras hangs on it. And the lookup table must be the stretch of each pixel it replaces,
  keeping the order of the levels.
 */
module MotionContrast {
  import opened Numbers
  import Sorting
  import opened Wrappers

  const LEVELS := 256

  predicate Bytes(s: seq<int>) { forall i | 0 <= i < |s| :: 0 <= s[i] < LEVELS }

  // ---------------------------------------------------------------------------------------------
  // uint8_percentile
  // ---------------------------------------------------------------------------------------------

  function CountOf(s: seq<int>, v: int): nat {
    if s == [] then 0 else CountOf(s[..|s| - 1], v) + if s[|s| - 1] == v then 1 else 0
  }

  /** `np.bincount(flat, minlength=256)`. */
  function Counts(s: seq<int>): (r: seq<nat>)
  {
    seq(LEVELS, v requires 0 <= v < LEVELS => CountOf(s, v))
  }

  /** `np.cumsum`. */
  function Cumulative(counts: seq<nat>): (r: seq<nat>)
    ensures |r| == |counts|
  {
    if counts == [] then []
    else
      var before := Cumulative(counts[..|counts| - 1]);
      before + [(if before == [] then 0 else before[|before| - 1]) + counts[|counts| - 1]]
  }

  /** `np.searchsorted(cumulative, k, side="right")` on a non-decreasing array: the first position above `k`. */
  function SearchRight(cumulative: seq<nat>, k: int, from: nat): nat
    requires from <= |cumulative|
    decreases |cumulative| - from
  {
    if from == |cumulative| || cumulative[from] > k then from else SearchRight(cumulative, k, from + 1)
  }

  function OrderStatistic(s: seq<int>, k: int): nat {
    SearchRight(Cumulative(Counts(s)), k, 0)
  }

  /** The value a fraction `f` of the way from `low` to `high`. */
  function Lerp(low: real, high: real, f: real): real { low + f * (high - low) }

  function Rank(n: nat, q: real): real { (n - 1) as real * (q / 100.0) }

  /** `None` is the exception on an empty array. */
  function Percentile(s: seq<int>, q: real): Option<real> {
    var n := |s|;
    if n == 0 then None
    else if n == 1 then Some(s[0] as real)
    else
      var rank := Rank(n, q);
      var lowerIndex := rank.Floor;
      var frac := rank - lowerIndex as real;
      var lower := OrderStatistic(s, lowerIndex) as real;
      if frac == 0.0 then Some(lower)
      else
        var upper := OrderStatistic(s, Min(lowerIndex + 1, n - 1)) as real;
        Some(Lerp(lower, upper, frac))
  }

  // ---------------------------------------------------------------------------------------------
  // The reference: sort, then interpolate
  // ---------------------------------------------------------------------------------------------

  predicate Sorted(t: seq<int>) { forall i, j | 0 <= i < j < |t| :: t[i] <= t[j] }

  predicate SortOf(t: seq<int>, s: seq<int>) { Sorted(t) && multiset(t) == multiset(s) }

  function At(t: seq<int>, k: int): real
    requires t != []
  {
    t[if k < 0 then 0 else Min(k, |t| - 1)] as real
  }

  /** Linear interpolation of the sorted values at rank `(n - 1) * q / 100`. */
  function Interpolated(t: seq<int>, q: real): real
    requires t != []
  {
    var rank := Rank(|t|, q);
    Lerp(At(t, rank.Floor), At(t, rank.Floor + 1), rank - rank.Floor as real)
  }

  predicate AtMost(a: int, b: int) { a <= b }

  function SortInts(s: seq<int>): seq<int> { Sorting.Sort(s, AtMost) }

  lemma SortExists(s: seq<int>)
    ensures SortOf(SortInts(s), s)
  {
    Sorting.SortSorts(s, AtMost);
    assert forall i, j | 0 <= i < j < |SortInts(s)| :: AtMost(SortInts(s)[i], SortInts(s)[j]);
  }

  // ---------------------------------------------------------------------------------------------
  // The histogram knows the order statistics
  // ---------------------------------------------------------------------------------------------

  function CountAtMost(s: seq<int>, v: int): nat {
    if s == [] then 0 else CountAtMost(s[..|s| - 1], v) + if s[|s| - 1] <= v then 1 else 0
  }

  lemma {:induction false} CountIsMultiplicity(s: seq<int>, v: int)
    ensures CountOf(s, v) == multiset(s)[v]
  {
    if s != [] {
      var n := |s| - 1;
      CountIsMultiplicity(s[..n], v);
      assert s == s[..n] + [s[n]];
    }
  }

  /** The histogram forgets the order of the pixels and nothing else. */
  lemma CountsForgetOrder(s: seq<int>, t: seq<int>)
    requires multiset(s) == multiset(t)
    ensures Counts(s) == Counts(t)
  {
    forall v | 0 <= v < LEVELS
      ensures Counts(s)[v] == Counts(t)[v]
    {
      CountIsMultiplicity(s, v);
      CountIsMultiplicity(t, v);
    }
  }

  lemma {:induction false} OneMoreLevel(s: seq<int>, v: int)
    ensures CountAtMost(s, v) == CountAtMost(s, v - 1) + CountOf(s, v)
  {
    if s != [] {
      OneMoreLevel(s[..|s| - 1], v);
    }
  }

  lemma {:induction false} NothingBelowZero(s: seq<int>)
    requires Bytes(s)
    ensures CountAtMost(s, -1) == 0
  {
    if s != [] {
      NothingBelowZero(s[..|s| - 1]);
    }
  }

  lemma {:induction false} CumulativeCounts(s: seq<int>, n: nat, v: nat)
    requires Bytes(s) && v < n <= LEVELS
    ensures Cumulative(Counts(s)[..n])[v] == CountAtMost(s, v)
  {
    var counts := Counts(s)[..n];
    assert counts[..n - 1] == Counts(s)[..n - 1];
    if v < n - 1 {
      CumulativeCounts(s, n - 1, v);
    } else {
      OneMoreLevel(s, v);
      if n > 1 {
        CumulativeCounts(s, n - 1, v - 1);
      } else {
        NothingBelowZero(s);
      }
    }
  }

  lemma {:induction false} CountBounds(t: seq<int>, v: int)
    ensures CountAtMost(t, v) <= |t|
    ensures t != [] && (forall i | 0 <= i < |t| :: t[i] <= v) ==> CountAtMost(t, v) == |t|
  {
    if t != [] {
      CountBounds(t[..|t| - 1], v);
    }
  }

  /** In a sorted array, more than `k` values are at most `v` exactly when the `k`-th one is. */
  lemma {:induction false} SortedCount(t: seq<int>, v: int, k: nat)
    requires Sorted(t) && k < |t|
    ensures CountAtMost(t, v) > k <==> t[k] <= v
  {
    var n := |t| - 1;
    if k < n {
      SortedCount(t[..n], v, k);
    } else {
      CountBounds(t, v);
      CountBounds(t[..n], v);
      if t[n] <= v {
        assert forall i | 0 <= i < |t| :: t[i] <= v;
      }
    }
  }

  lemma {:induction false} SearchFinds(c: seq<nat>, k: int, from: nat, v: nat)
    requires from <= v < |c| && c[v] > k
    requires forall u | from <= u < v :: c[u] <= k
    ensures SearchRight(c, k, from) == v
    decreases v - from
  {
    if from < v {
      SearchFinds(c, k, from + 1, v);
    }
  }

  /** The first level whose cumulative count exceeds `k` is the `k`-th value in sorted order. */
  lemma HistogramOrderStatistic(s: seq<int>, t: seq<int>, k: nat)
    requires Bytes(s) && SortOf(t, s) && k < |t|
    ensures OrderStatistic(s, k) == t[k]
  {
    assert t[k] in multiset(s);
    assert forall i | 0 <= i < |t| :: t[i] in multiset(s);
    assert Bytes(t);
    CountsForgetOrder(s, t);
    var c := Cumulative(Counts(t));
    assert Counts(t)[..LEVELS] == Counts(t);
    forall u: nat | u < LEVELS
      ensures c[u] > k <==> t[k] <= u
    {
      CumulativeCounts(t, LEVELS, u);
      SortedCount(t, u, k);
    }
    SearchFinds(c, k, 0, t[k]);
  }

  lemma SameLength(s: seq<int>, t: seq<int>)
    requires multiset(s) == multiset(t)
    ensures |s| == |t|
  {
    assert |multiset(s)| == |s| && |multiset(t)| == |t|;
  }

  lemma ProductOrder(a: real, b: real, n: real)
    requires a <= b && n >= 0.0
    ensures a * n <= b * n
  {
    assert (b - a) * n >= 0.0;
  }

  lemma LerpIsBetween(low: real, high: real, f: real)
    requires low <= high && 0.0 <= f <= 1.0
    ensures low <= Lerp(low, high, f) <= high
    ensures Lerp(low, high, 0.0) == low
  {
    ProductOrder(0.0, f, high - low);
    ProductOrder(f, 1.0, high - low);
  }

  lemma LerpOrder(low: real, high: real, f: real, g: real)
    requires low <= high && f <= g
    ensures Lerp(low, high, f) <= Lerp(low, high, g)
  {
    ProductOrder(f, g, high - low);
  }

  lemma RankOrder(n: nat, p: real, q: real)
    requires n > 0 && p <= q
    ensures Rank(n, p) <= Rank(n, q)
    ensures Rank(n, 0.0) == 0.0 && Rank(n, 100.0) == (n - 1) as real
  {
    ProductOrder(p / 100.0, q / 100.0, (n - 1) as real);
  }

  lemma RankInRange(n: nat, q: real)
    requires n > 0 && 0.0 <= q <= 100.0
    ensures 0.0 <= Rank(n, q) <= (n - 1) as real
    ensures 0 <= Rank(n, q).Floor <= n - 1
  {
    hide Rank;
    RankOrder(n, 0.0, q);
    RankOrder(n, q, 100.0);
  }

  /** The replacement is exact: the histogram percentile is the sort-based one, for any pixels and any `q`. */
  lemma PercentileIsExact(s: seq<int>, t: seq<int>, q: real)
    requires Bytes(s) && s != [] && SortOf(t, s) && 0.0 <= q <= 100.0
    ensures t != [] && Percentile(s, q) == Some(Interpolated(t, q))
  {
    hide Rank, OrderStatistic, Lerp;
    SameLength(s, t);
    var n := |s|;
    RankInRange(n, q);
    var k := Rank(n, q).Floor;
    LerpAtZero(At(t, k), At(t, k + 1));
    if n == 1 {
      assert t[0] in multiset(s);
      assert s == [s[0]];
    } else {
      HistogramOrderStatistic(s, t, k);
      HistogramOrderStatistic(s, t, Min(k + 1, n - 1));
    }
  }

  lemma LerpAtZero(low: real, high: real)
    ensures Lerp(low, high, 0.0) == low
  {
  }

  lemma RankWrittenOut(n: nat, q: real)
    requires n > 0
    ensures Rank(n, q) == (n - 1) as real * q / 100.0
  {
  }

  /**
    The same with the arithmetic written out: at rank `(n - 1) * q / 100` of the pixels in ascending order, the
    value is the fraction of the way from one neighbour to the next.
   */
  lemma PercentileInterpolates(s: seq<int>, t: seq<int>, q: real, rank: real)
    requires s != [] && (forall i | 0 <= i < |s| :: 0 <= s[i] <= 255) && 0.0 <= q <= 100.0
    requires multiset(t) == multiset(s) && forall i, j | 0 <= i < j < |t| :: t[i] <= t[j]
    requires rank == (|t| - 1) as real * q / 100.0
    ensures var k := rank.Floor;
            var next := if k + 1 < |t| then k + 1 else k;
            && 0 <= k <= next < |t|
            && Percentile(s, q) == Some(t[k] as real + (rank - k as real) * (t[next] - t[k]) as real)
  {
    hide Rank, Percentile, Interpolated;
    SameLength(s, t);
    PercentileIsExact(s, t, q);
    RankWrittenOut(|t|, q);
    RankInRange(|t|, q);
    assert Rank(|t|, q) == rank;
    InterpolatedWrittenOut(t, q, rank);
  }

  lemma InterpolatedWrittenOut(t: seq<int>, q: real, rank: real)
    requires t != [] && rank == Rank(|t|, q) && 0 <= rank.Floor < |t|
    ensures var k := rank.Floor;
            var next := if k + 1 < |t| then k + 1 else k;
            Interpolated(t, q) == t[k] as real + (rank - k as real) * (t[next] - t[k]) as real
  {
    hide Rank;
  }

  // ---------------------------------------------------------------------------------------------
  // Bounds and monotonicity
  // ---------------------------------------------------------------------------------------------

  lemma InterpolatedBetween(t: seq<int>, q: real)
    requires Sorted(t) && t != [] && 0.0 <= q <= 100.0
    ensures At(t, Rank(|t|, q).Floor) <= Interpolated(t, q) <= At(t, Rank(|t|, q).Floor + 1)
  {
    hide Rank, Lerp;
    var rank := Rank(|t|, q);
    RankInRange(|t|, q);
    LerpIsBetween(At(t, rank.Floor), At(t, rank.Floor + 1), rank - rank.Floor as real);
  }

  lemma InterpolatedOrder(t: seq<int>, p: real, q: real)
    requires Sorted(t) && t != [] && 0.0 <= p <= q <= 100.0
    ensures Interpolated(t, p) <= Interpolated(t, q)
  {
    hide Rank, Lerp;
    var n := |t|;
    var low, high := Rank(n, p), Rank(n, q);
    RankOrder(n, p, q);
    RankInRange(n, p);
    RankInRange(n, q);
    InterpolatedBetween(t, p);
    InterpolatedBetween(t, q);
    if low.Floor == high.Floor {
      LerpOrder(At(t, low.Floor), At(t, low.Floor + 1), low - low.Floor as real, high - high.Floor as real);
    } else {
      assert low.Floor + 1 <= high.Floor;
      assert At(t, low.Floor + 1) <= At(t, high.Floor);
    }
  }

  lemma InterpolatedEnds(t: seq<int>, k: nat)
    requires Sorted(t) && k < |t|
    ensures Interpolated(t, 0.0) <= t[k] as real <= Interpolated(t, 100.0)
  {
    hide Rank, Lerp;
    var n := |t|;
    RankOrder(n, 0.0, 100.0);
    LerpAtZero(At(t, 0), At(t, 1));
    LerpAtZero(At(t, n - 1), At(t, n));
    assert t[0] <= t[k] <= t[n - 1];
  }

  /** The percentile lies between the darkest and the brightest pixel and never falls as `q` grows. */
  lemma PercentileBoundsAndOrder(s: seq<int>, p: real, q: real, i: nat)
    requires Bytes(s) && i < |s| && 0.0 <= p <= q <= 100.0
    ensures Percentile(s, p).Some? && Percentile(s, q).Some? && Percentile(s, p).value <= Percentile(s, q).value
    ensures Percentile(s, 0.0).Some? && Percentile(s, 100.0).Some?
    ensures Percentile(s, 0.0).value <= s[i] as real <= Percentile(s, 100.0).value
  {
    hide Percentile, Interpolated;
    var t := SortInts(s);
    SortExists(s);
    SameLength(s, t);
    PercentileIsExact(s, t, p);
    PercentileIsExact(s, t, q);
    PercentileIsExact(s, t, 0.0);
    PercentileIsExact(s, t, 100.0);
    InterpolatedOrder(t, p, q);
    assert s[i] in multiset(t);
    var k :| 0 <= k < |t| && t[k] == s[i];
    InterpolatedEnds(t, k);
  }

  // ---------------------------------------------------------------------------------------------
  // stretch_lut
  // ---------------------------------------------------------------------------------------------

  function Clamp(v: real, lo: real, hi: real): real { if v < lo then lo else if v > hi then hi else v }

  function Scaled(x: real, width: real): real
    requires width != 0.0
  {
    x * (255.0 / width)
  }

  /** `(clip(v, lo, hi) - lo) * (255 / (hi - lo))`, truncated as `astype(uint8)` does. */
  function Stretched(v: int, lo: real, hi: real): int
    requires lo < hi
  {
    Scaled(Clamp(v as real, lo, hi) - lo, hi - lo).Floor
  }

  function Lut(lo: real, hi: real): (r: seq<int>)
    requires lo < hi
    ensures |r| == LEVELS
  {
    seq(LEVELS, v requires 0 <= v < LEVELS => Stretched(v, lo, hi))
  }

  /** The lookup gives every pixel the stretch of its own level. */
  function StretchLut(frame: seq<int>, lo: real, hi: real): (r: seq<int>)
    requires Bytes(frame) && lo < hi
    ensures |r| == |frame| && forall i | 0 <= i < |frame| :: r[i] == Stretched(frame[i], lo, hi)
  {
    var table := Lut(lo, hi);
    assert forall v | 0 <= v < LEVELS :: table[v] == Stretched(v, lo, hi);
    seq(|frame|, i requires 0 <= i < |frame| => table[frame[i]])
  }

  lemma ScaledOrder(x: real, y: real, width: real)
    requires x <= y && 0.0 < width
    ensures Scaled(x, width) <= Scaled(y, width)
    ensures Scaled(0.0, width) == 0.0 && Scaled(width, width) == 255.0
  {
    assert 255.0 / width > 0.0;
    ProductOrder(x, y, 255.0 / width);
  }

  /** The table stays in byte range, keeps the order of the levels, and sends the two percentiles to black and white. */
  lemma StretchKeepsOrder(u: int, v: int, lo: real, hi: real)
    requires 0 <= u <= v < LEVELS && lo < hi
    ensures 0 <= Lut(lo, hi)[u] <= Lut(lo, hi)[v] < LEVELS
    ensures u as real <= lo ==> Lut(lo, hi)[u] == 0
    ensures v as real >= hi ==> Lut(lo, hi)[v] == 255
  {
    hide Scaled;
    var x, y := Clamp(u as real, lo, hi) - lo, Clamp(v as real, lo, hi) - lo;
    ScaledOrder(0.0, x, hi - lo);
    ScaledOrder(x, y, hi - lo);
    ScaledOrder(y, hi - lo, hi - lo);
    assert Scaled(x, hi - lo).Floor <= Scaled(y, hi - lo).Floor <= 255;
  }

  lemma QuotientUndone(a: real, b: real)
    requires b > 0.0
    ensures a * (255.0 / b) * b == 255.0 * a
  {
    assert 255.0 / b * b == 255.0;
    assert a * (255.0 / b) * b == a * (255.0 / b * b);
  }

  /** Each pixel of the result: black up to `lo`, white from `hi` on, and in between the whole part of `255 * (v - lo) / (hi - lo)`. */
  lemma StretchExactly(frame: seq<int>, lo: real, hi: real, i: nat)
    requires Bytes(frame) && lo < hi && i < |frame|
    ensures var v, r := frame[i] as real, StretchLut(frame, lo, hi)[i];
            && (v <= lo ==> r == 0)
            && (v >= hi ==> r == 255)
            && (lo < v < hi ==> r as real * (hi - lo) <= 255.0 * (v - lo) < (r + 1) as real * (hi - lo))
  {
    hide Scaled;
    var v := frame[i] as real;
    assert StretchLut(frame, lo, hi)[i] == Stretched(frame[i], lo, hi);
    StretchKeepsOrder(frame[i], frame[i], lo, hi);
    if lo < v < hi {
      var x := Scaled(v - lo, hi - lo);
      QuotientUndone(v - lo, hi - lo);
      assert x * (hi - lo) == 255.0 * (v - lo) by { ScaledTimesWidth(v - lo, hi - lo); }
      ProductOrder(x.Floor as real, x, hi - lo);
      StrictProduct(x, (x.Floor + 1) as real, hi - lo);
    }
  }

  lemma ScaledTimesWidth(x: real, width: real)
    requires width > 0.0
    ensures Scaled(x, width) * width == 255.0 * x
  {
    QuotientUndone(x, width);
  }

  lemma StrictProduct(a: real, b: real, n: real)
    requires a < b && n > 0.0
    ensures a * n < b * n
  {
    assert (b - a) * n > 0.0;
  }
}
