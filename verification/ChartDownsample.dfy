/**
  `downsamplePoints`: thin a series for drawing without losing its ends or any field's extremes.
  The series is cut into buckets, and each bucket keeps the first minimum and the first maximum of every field
  asked for. A point holds the fields that read as finite numbers; the fields asked for are nonempty strings,
  possibly repeated.
 */
module ChartDownsample {
  import opened Numbers
  import opened Wrappers

  type Point = map<string, real>

  /** The requested ceiling; `None` is a value that is not a finite number. */
  function Ceiling(maxPoints: Option<real>): (max: int)
    ensures max >= 2
  {
    Max(2, if maxPoints.Some? then maxPoints.value.Floor else 2)
  }

  function PerBucket(fields: nat): nat { Max(2, fields * 2) }

  function BucketCount(max: int, fields: nat): (r: nat)
    requires max >= 2
    ensures r >= 1
  {
    Max(1, max / PerBucket(fields))
  }

  function BucketStart(n: nat, buckets: nat, b: nat): int
    requires buckets > 0
  {
    (b as real * (n as real / buckets as real)).Floor
  }

  function BucketEnd(n: nat, buckets: nat, b: nat): int
    requires buckets > 0
  {
    if b + 1 == buckets then n else BucketStart(n, buckets, b + 1)
  }

  // ---------------------------------------------------------------------------------------------
  // What is kept
  // ---------------------------------------------------------------------------------------------

  /** `sign` 1 looks for the first maximum of a field in `start..i`, -1 for the first minimum. */
  function Extreme(list: seq<Point>, field: string, sign: real, start: nat, i: nat): (r: Option<nat>)
    requires start <= i <= |list|
    ensures r.Some? ==> start <= r.value < i && field in list[r.value]
    decreases i
  {
    if i == start then None
    else
      var best := Extreme(list, field, sign, start, i - 1);
      if field !in list[i - 1] then best
      else if best.None? || sign * list[i - 1][field] > sign * list[best.value][field] then Some(i - 1)
      else best
  }

  function AsSet(index: Option<nat>): set<nat> { if index.Some? then {index.value} else {} }

  function FieldKeep(list: seq<Point>, field: string, start: nat, end: nat): set<nat>
    requires start <= end <= |list|
  {
    AsSet(Extreme(list, field, -1.0, start, end)) + AsSet(Extreme(list, field, 1.0, start, end))
  }

  function FieldsKeep(list: seq<Point>, fields: seq<string>, start: nat, end: nat): set<nat>
    requires start <= end <= |list|
  {
    if fields == [] then {}
    else
      FieldsKeep(list, fields[..|fields| - 1], start, end) + FieldKeep(list, fields[|fields| - 1], start, end)
  }

  function BucketKeep(list: seq<Point>, fields: seq<string>, start: int, end: int): set<nat> {
    if end <= start || start < 0 || end > |list| then {}
    else if fields == [] then {start}
    else FieldsKeep(list, fields, start, end)
  }

  /** Kept by the first `b` buckets, and the two ends. */
  function KeepUpTo(list: seq<Point>, fields: seq<string>, buckets: nat, b: nat): set<nat>
    requires list != [] && buckets > 0
  {
    if b == 0 then {0, |list| - 1}
    else
      KeepUpTo(list, fields, buckets, b - 1) +
      BucketKeep(list, fields, BucketStart(|list|, buckets, b - 1), BucketEnd(|list|, buckets, b - 1))
  }

  /** The indices of a set below `n`, in ascending order. */
  function Ascending(keep: set<nat>, n: nat): seq<nat> {
    if n == 0 then []
    else if n - 1 in keep then Ascending(keep, n - 1) + [n - 1] else Ascending(keep, n - 1)
  }

  lemma {:induction false} AscendingIs(keep: set<nat>, n: nat)
    ensures forall i: nat :: i in Ascending(keep, n) <==> i in keep && i < n
    ensures forall p | 0 <= p < |Ascending(keep, n)| :: Ascending(keep, n)[p] < n
    ensures forall p, q | 0 <= p < q < |Ascending(keep, n)| :: Ascending(keep, n)[p] < Ascending(keep, n)[q]
  {
    if n > 0 {
      AscendingIs(keep, n - 1);
    }
  }

  function Pick(list: seq<Point>, indices: seq<nat>): (r: seq<Point>)
    requires forall p | 0 <= p < |indices| :: indices[p] < |list|
    ensures |r| == |indices| && forall p | 0 <= p < |r| :: r[p] == list[indices[p]]
  {
    seq(|indices|, p requires 0 <= p < |indices| => list[indices[p]])
  }

  function Kept(list: seq<Point>, max: int, fields: seq<string>): seq<nat>
    requires max >= 2
  {
    if |list| <= max then seq(|list|, i => i)
    else
      var buckets := BucketCount(max, |fields|);
      Ascending(KeepUpTo(list, fields, buckets, buckets), |list|)
  }

  lemma KeptInRange(list: seq<Point>, max: int, fields: seq<string>)
    requires max >= 2
    ensures forall p | 0 <= p < |Kept(list, max, fields)| :: Kept(list, max, fields)[p] < |list|
  {
    if |list| > max {
      var buckets := BucketCount(max, |fields|);
      AscendingIs(KeepUpTo(list, fields, buckets, buckets), |list|);
    }
  }

  function Downsampled(list: seq<Point>, maxPoints: Option<real>, fields: seq<string>): seq<Point> {
    KeptInRange(list, Ceiling(maxPoints), fields);
    Pick(list, Kept(list, Ceiling(maxPoints), fields))
  }

  // ---------------------------------------------------------------------------------------------
  // The loops
  // ---------------------------------------------------------------------------------------------

  method ScanField(list: seq<Point>, field: string, start: nat, end: nat) returns (keep: set<nat>)
    requires start < end <= |list|
    ensures keep == FieldKeep(list, field, start, end)
  {
    var minIndex, maxIndex: Option<nat> := None, None;
    for index := start to end
      invariant minIndex == Extreme(list, field, -1.0, start, index)
      invariant maxIndex == Extreme(list, field, 1.0, start, index)
    {
      if field !in list[index] {
        continue;
      }
      var value := list[index][field];
      if minIndex.None? || value < list[minIndex.value][field] {
        minIndex := Some(index);
      }
      if maxIndex.None? || value > list[maxIndex.value][field] {
        maxIndex := Some(index);
      }
    }
    keep := AsSet(minIndex) + AsSet(maxIndex);
  }

  method ScanBucket(list: seq<Point>, fields: seq<string>, start: int, end: int) returns (keep: set<nat>)
    requires 0 <= start && end <= |list|
    ensures keep == BucketKeep(list, fields, start, end)
  {
    keep := {};
    if end <= start {
      return;
    }
    if fields == [] {
      return {start};
    }
    for f := 0 to |fields|
      invariant keep == FieldsKeep(list, fields[..f], start, end)
    {
      assert fields[..f + 1][..f] == fields[..f];
      var extremes := ScanField(list, fields[f], start, end);
      keep := keep + extremes;
    }
    assert fields[..|fields|] == fields;
  }

  method DownsamplePoints(list: seq<Point>, maxPoints: Option<real>, fields: seq<string>) returns (result: seq<Point>)
    ensures result == Downsampled(list, maxPoints, fields)
  {
    hide BucketStart, BucketEnd, BucketKeep, BucketCount;
    var max := Ceiling(maxPoints);
    if |list| <= max {
      return list;
    }
    var buckets := BucketCount(max, |fields|);
    var keep: set<nat> := {0, |list| - 1};
    for bucket := 0 to buckets
      invariant keep == KeepUpTo(list, fields, buckets, bucket)
    {
      BucketBounds(|list|, buckets, bucket);
      var found := ScanBucket(list, fields, BucketStart(|list|, buckets, bucket), BucketEnd(|list|, buckets, bucket));
      keep := keep + found;
    }
    AscendingIs(keep, |list|);
    return Pick(list, Ascending(keep, |list|));
  }

  // ---------------------------------------------------------------------------------------------
  // Buckets cut the series into consecutive pieces
  // ---------------------------------------------------------------------------------------------

  lemma ScaleOrder(a: real, b: real, size: real)
    requires a <= b && size >= 0.0
    ensures a * size <= b * size
  {
    assert (b - a) * size >= 0.0;
  }

  lemma BucketBounds(n: nat, buckets: nat, b: nat)
    requires b < buckets
    ensures 0 <= BucketStart(n, buckets, b) <= BucketEnd(n, buckets, b) <= n
    ensures BucketStart(n, buckets, 0) == 0
  {
    var size := n as real / buckets as real;
    ScaleOrder(0.0, b as real, size);
    ScaleOrder(b as real, (b + 1) as real, size);
    ScaleOrder((b + 1) as real, buckets as real, size);
    assert buckets as real * size == n as real;
  }

  /** Every index is in some bucket. */
  lemma {:induction false} BucketHolds(n: nat, buckets: nat, i: nat, b: nat) returns (k: nat)
    requires b < buckets && i < n && i < BucketEnd(n, buckets, b)
    ensures k <= b && BucketStart(n, buckets, k) <= i < BucketEnd(n, buckets, k)
  {
    BucketBounds(n, buckets, b);
    if BucketStart(n, buckets, b) <= i {
      k := b;
    } else {
      k := BucketHolds(n, buckets, i, b - 1);
    }
  }

  // ---------------------------------------------------------------------------------------------
  // Ends and extremes survive
  // ---------------------------------------------------------------------------------------------

  lemma {:induction false} ExtremeIsExtreme(list: seq<Point>, field: string, sign: real, start: nat, i: nat, k: nat)
    requires start <= k < i <= |list| && field in list[k]
    ensures Extreme(list, field, sign, start, i).Some?
    ensures sign * list[k][field] <= sign * list[Extreme(list, field, sign, start, i).value][field]
    decreases i
  {
    if k < i - 1 {
      ExtremeIsExtreme(list, field, sign, start, i - 1, k);
    }
  }

  lemma {:induction false} FieldIsKept(list: seq<Point>, fields: seq<string>, start: nat, end: nat, field: string)
    requires start <= end <= |list| && field in fields
    ensures FieldKeep(list, field, start, end) <= FieldsKeep(list, fields, start, end)
  {
    var n := |fields| - 1;
    if field != fields[n] {
      FieldIsKept(list, fields[..n], start, end, field);
    }
  }

  lemma {:induction false} KeepGrows(list: seq<Point>, fields: seq<string>, buckets: nat, b: nat, k: nat)
    requires list != [] && buckets > 0 && k < b
    ensures KeepUpTo(list, fields, buckets, k + 1) <= KeepUpTo(list, fields, buckets, b)
  {
    if k + 1 < b {
      KeepGrows(list, fields, buckets, b - 1, k);
    }
  }

  lemma {:induction false} EndsAreKept(list: seq<Point>, fields: seq<string>, buckets: nat, b: nat)
    requires list != [] && buckets > 0
    ensures {0, |list| - 1} <= KeepUpTo(list, fields, buckets, b)
  {
    if b > 0 {
      EndsAreKept(list, fields, buckets, b - 1);
    }
  }

  /** In every bucket the first largest and the first smallest value of every requested field are kept. */
  lemma ExtremesAreKept(list: seq<Point>, fields: seq<string>, buckets: nat, field: string, sign: real, i: nat) returns (j: nat)
    requires buckets > 0 && field in fields && i < |list| && field in list[i] && (sign == 1.0 || sign == -1.0)
    ensures j < |list| && j in KeepUpTo(list, fields, buckets, buckets)
    ensures field in list[j] && sign * list[i][field] <= sign * list[j][field]
  {
    var k := BucketHolds(|list|, buckets, i, buckets - 1);
    BucketBounds(|list|, buckets, k);
    var start, end := BucketStart(|list|, buckets, k), BucketEnd(|list|, buckets, k);
    ExtremeIsExtreme(list, field, sign, start, end, i);
    j := Extreme(list, field, sign, start, end).value;
    FieldIsKept(list, fields, start, end, field);
    assert j in FieldKeep(list, field, start, end);
    assert j in BucketKeep(list, fields, start, end);
    KeepGrows(list, fields, buckets, buckets, k);
  }

  /** For either sign, some kept point is at least as extreme as point `i`. */
  lemma ExtremeSurvives(list: seq<Point>, maxPoints: Option<real>, fields: seq<string>, field: string, sign: real, i: nat)
    returns (p: nat)
    requires i < |list| && field in fields && field in list[i] && (sign == 1.0 || sign == -1.0)
    ensures var result := Downsampled(list, maxPoints, fields);
            p < |result| && field in result[p] && sign * list[i][field] <= sign * result[p][field]
  {
    hide BucketStart, BucketEnd, BucketCount, Extreme;
    var max := Ceiling(maxPoints);
    if |list| <= max {
      p := i;
    } else {
      var buckets := BucketCount(max, |fields|);
      var j := ExtremesAreKept(list, fields, buckets, field, sign, i);
      var kept := Kept(list, max, fields);
      AscendingIs(KeepUpTo(list, fields, buckets, buckets), |list|);
      assert j in kept;
      p :| p < |kept| && kept[p] == j;
    }
  }

  /**
    The result is an in-order selection that starts and ends where the series does and, for every
    requested field, reaches at least as high and at least as low as any point of the series.
   */
  lemma DownsamplePreserves(list: seq<Point>, maxPoints: Option<real>, fields: seq<string>, field: string, i: nat)
    requires i < |list| && field in fields && field in list[i]
    ensures var result := Downsampled(list, maxPoints, fields);
            && (exists p :: 0 <= p < |result| && field in result[p] && result[p][field] >= list[i][field])
            && (exists p :: 0 <= p < |result| && field in result[p] && result[p][field] <= list[i][field])
  {
    hide Downsampled;
    var p := ExtremeSurvives(list, maxPoints, fields, field, 1.0, i);
    var q := ExtremeSurvives(list, maxPoints, fields, field, -1.0, i);
  }

  lemma DownsampleIsSelection(list: seq<Point>, maxPoints: Option<real>, fields: seq<string>) returns (kept: seq<nat>)
    requires list != []
    ensures var result := Downsampled(list, maxPoints, fields);
            && |kept| == |result| && result != []
            && (forall p | 0 <= p < |kept| :: kept[p] < |list| && result[p] == list[kept[p]])
            && (forall p, q | 0 <= p < q < |kept| :: kept[p] < kept[q])
            && result[0] == list[0] && result[|result| - 1] == list[|list| - 1]
  {
    hide BucketStart, BucketEnd, BucketCount, BucketKeep;
    var max := Ceiling(maxPoints);
    kept := Kept(list, max, fields);
    KeptInRange(list, max, fields);
    if |list| > max {
      var buckets := BucketCount(max, |fields|);
      EndsAreKept(list, fields, buckets, buckets);
      AscendingIs(KeepUpTo(list, fields, buckets, buckets), |list|);
    }
  }

  // ---------------------------------------------------------------------------------------------
  // How many points are kept
  // ---------------------------------------------------------------------------------------------

  lemma {:induction false} FieldsKeepSize(list: seq<Point>, fields: seq<string>, start: nat, end: nat)
    requires start <= end <= |list|
    ensures |FieldsKeep(list, fields, start, end)| <= 2 * |fields|
  {
    if fields != [] {
      FieldsKeepSize(list, fields[..|fields| - 1], start, end);
      var low, high := Extreme(list, fields[|fields| - 1], -1.0, start, end), Extreme(list, fields[|fields| - 1], 1.0, start, end);
      assert |AsSet(low)| <= 1 && |AsSet(high)| <= 1;
    }
  }

  lemma BucketKeepSize(list: seq<Point>, fields: seq<string>, start: int, end: int)
    ensures |BucketKeep(list, fields, start, end)| <= PerBucket(|fields|)
  {
    if 0 <= start < end <= |list| && fields != [] {
      FieldsKeepSize(list, fields, start, end);
    }
  }

  lemma {:induction false} KeepSize(list: seq<Point>, fields: seq<string>, buckets: nat, b: nat)
    requires list != [] && buckets > 0
    ensures |KeepUpTo(list, fields, buckets, b)| <= b * PerBucket(|fields|) + 2
  {
    hide BucketStart, BucketEnd, BucketKeep, PerBucket;
    if b == 0 {
      assert |{0, |list| - 1}| <= 2;
    } else {
      KeepSize(list, fields, buckets, b - 1);
      var start, end := BucketStart(|list|, buckets, b - 1), BucketEnd(|list|, buckets, b - 1);
      BucketKeepSize(list, fields, start, end);
      OneMoreProduct(b, PerBucket(|fields|));
    }
  }

  lemma OneMoreProduct(b: nat, size: nat)
    requires b > 0
    ensures b * size == (b - 1) * size + size
  {
  }

  lemma {:induction false} AscendingSize(keep: set<nat>, n: nat)
    ensures |Ascending(keep, n)| <= |keep|
  {
    if n > 0 {
      if n - 1 in keep {
        SameBelow(keep, keep - {n - 1}, n - 1);
        AscendingSize(keep - {n - 1}, n - 1);
      } else {
        AscendingSize(keep, n - 1);
      }
    }
  }

  lemma {:induction false} SameBelow(a: set<nat>, b: set<nat>, n: nat)
    requires forall i: nat | i < n :: i in a <==> i in b
    ensures Ascending(a, n) == Ascending(b, n)
  {
    if n > 0 {
      SameBelow(a, b, n - 1);
    }
  }

  lemma BucketsFit(max: int, fields: nat)
    requires max >= 2
    ensures BucketCount(max, fields) * PerBucket(fields) <= Max(max, PerBucket(fields))
  {
    assert max / PerBucket(fields) * PerBucket(fields) <= max;
  }

  predicate Distinct(fields: seq<string>) { forall i, j | 0 <= i < j < |fields| :: fields[i] != fields[j] }

  /** The fields without the repetitions. */
  function Different(fields: seq<string>): (r: seq<string>)
    ensures Distinct(r) && |r| <= |fields| && (r == [] <==> fields == [])
    ensures forall f :: f in r <==> f in fields
  {
    if fields == [] then []
    else
      var front, last := fields[..|fields| - 1], fields[|fields| - 1];
      assert fields == front + [last];
      if last in front then Different(front) else Different(front) + [last]
  }

  lemma {:induction false} FieldsKeepExactly(list: seq<Point>, fields: seq<string>, start: nat, end: nat, i: nat)
    requires start <= end <= |list|
    ensures i in FieldsKeep(list, fields, start, end) <==> exists f :: f in fields && i in FieldKeep(list, f, start, end)
  {
    hide FieldKeep;
    if fields != [] {
      var front, last := fields[..|fields| - 1], fields[|fields| - 1];
      assert fields == front + [last];
      FieldsKeepExactly(list, front, start, end, i);
    }
  }

  /** A field asked for twice keeps nothing more. */
  lemma RepetitionKeepsNothing(list: seq<Point>, fields: seq<string>, start: nat, end: nat)
    requires start <= end <= |list|
    ensures FieldsKeep(list, Different(fields), start, end) == FieldsKeep(list, fields, start, end)
  {
    hide FieldKeep, FieldsKeep;
    forall i: nat
      ensures i in FieldsKeep(list, Different(fields), start, end) <==> i in FieldsKeep(list, fields, start, end)
    {
      FieldsKeepExactly(list, fields, start, end, i);
      FieldsKeepExactly(list, Different(fields), start, end, i);
    }
  }

  /** The size bound, whatever the series: the ceiling or two points per different field, and the two ends. */
  lemma DownsampleSize(list: seq<Point>, maxPoints: Option<real>, fields: seq<string>)
    ensures |Downsampled(list, maxPoints, fields)| <= Max(Ceiling(maxPoints), 2 * |Different(fields)|) + 2
  {
    hide Different, BucketStart, BucketEnd, FieldsKeep, Extreme;
    var max := Ceiling(maxPoints);
    if |list| > max {
      var buckets := BucketCount(max, |fields|);
      AscendingSize(KeepUpTo(list, fields, buckets, buckets), |list|);
      if max >= PerBucket(|fields|) {
        KeepSize(list, fields, buckets, buckets);
        BucketsFit(max, |fields|);
      } else {
        CrampedIsOneBucket(max, |fields|);
        OneBucketSize(list, fields);
      }
    }
  }

  lemma OneBucketSize(list: seq<Point>, fields: seq<string>)
    requires list != [] && fields != []
    ensures |KeepUpTo(list, fields, 1, 1)| <= 2 * |Different(fields)| + 2
  {
    hide BucketStart, BucketEnd, Different, FieldsKeep;
    OneBucket(|list|);
    RepetitionKeepsNothing(list, fields, 0, |list|);
    FieldsKeepSize(list, Different(fields), 0, |list|);
    assert KeepUpTo(list, fields, 1, 0) == {0, |list| - 1};
    assert |{0, |list| - 1}| <= 2;
  }

  // ---------------------------------------------------------------------------------------------
  // The documented bound, exactly
  // ---------------------------------------------------------------------------------------------

  /** Field `j` peaks at point `2j + 1`, dips at point `2j + 2` and is flat elsewhere. */
  function Spike(fields: seq<string>, j: nat, i: nat): real
  {
    if i == 2 * j + 1 then 1.0 else if i == 2 * j + 2 then -1.0 else 0.0
  }

  function IndexOf(fields: seq<string>, field: string): (j: nat)
    requires field in fields
    ensures j < |fields| && fields[j] == field
  {
    if fields[0] == field then 0 else 1 + IndexOf(fields[1..], field)
  }

  function SpikePoint(fields: seq<string>, i: nat): Point {
    map field | field in fields :: Spike(fields, IndexOf(fields, field), i)
  }

  function SpikySeries(fields: seq<string>): (r: seq<Point>)
    ensures |r| == 2 * |fields| + 2
  {
    seq(2 * |fields| + 2, i requires 0 <= i => SpikePoint(fields, i))
  }

  /** The field's only point of that sign is the extreme. */
  lemma SpikeIsExtreme(fields: seq<string>, j: nat, sign: real, at: nat)
    requires Distinct(fields) && j < |fields|
    requires (sign == 1.0 && at == 2 * j + 1) || (sign == -1.0 && at == 2 * j + 2)
    ensures Extreme(SpikySeries(fields), fields[j], sign, 0, 2 * |fields| + 2) == Some(at)
  {
    hide Extreme;
    var list, field := SpikySeries(fields), fields[j];
    ExtremeIsExtreme(list, field, sign, 0, |list|, at);
    var found := Extreme(list, field, sign, 0, |list|).value;
    assert IndexOf(fields, field) == j;
    assert list[at][field] == Spike(fields, j, at) && list[found][field] == Spike(fields, j, found);
  }

  lemma SpikesAreKept(fields: seq<string>, j: nat)
    requires Distinct(fields) && j < |fields|
    ensures var kept := FieldsKeep(SpikySeries(fields), fields, 0, 2 * |fields| + 2);
            2 * j + 1 in kept && 2 * j + 2 in kept
  {
    hide Extreme, FieldsKeep, SpikySeries;
    SpikeIsExtreme(fields, j, 1.0, 2 * j + 1);
    SpikeIsExtreme(fields, j, -1.0, 2 * j + 2);
    FieldIsKept(SpikySeries(fields), fields, 0, 2 * |fields| + 2, fields[j]);
  }

  lemma OneBucket(n: nat)
    ensures BucketStart(n, 1, 0) == 0 && BucketEnd(n, 1, 0) == n
  {
    BucketBounds(n, 1, 0);
  }

  lemma SpikyKeepsAll(fields: seq<string>, i: nat)
    requires i < 2 * |Different(fields)| + 2
    ensures i in KeepUpTo(SpikySeries(Different(fields)), fields, 1, 1)
  {
    hide BucketStart, BucketEnd, FieldsKeep, SpikySeries, Distinct, Different;
    var list := SpikySeries(Different(fields));
    OneBucket(|list|);
    assert KeepUpTo(list, fields, 1, 0) == {0, |list| - 1};
    if 0 < i < |list| - 1 {
      SpikesAreKept(Different(fields), (i - 1) / 2);
      RepetitionKeepsNothing(list, fields, 0, |list|);
    }
  }

  lemma CrampedIsOneBucket(max: int, fields: nat)
    requires 2 <= max < 2 * fields
    ensures BucketCount(max, fields) == 1
  {
    SmallQuotient(max, 2 * fields);
  }

  lemma SmallQuotient(a: nat, m: nat)
    requires a < m
    ensures a / m == 0
  {
    var q := a / m;
    assert a == q * m + a % m;
  }

  lemma SpikySeriesIsKeptWhole(fields: seq<string>, maxPoints: Option<real>)
    requires Ceiling(maxPoints) < 2 * |Different(fields)|
    ensures |Downsampled(SpikySeries(Different(fields)), maxPoints, fields)| == 2 * |Different(fields)| + 2
  {
    hide SpikySeries, KeepUpTo, Distinct, BucketCount;
    var list := SpikySeries(Different(fields));
    CrampedIsOneBucket(Ceiling(maxPoints), |fields|);
    forall i: nat | i < |list|
      ensures i in KeepUpTo(list, fields, 1, 1)
    {
      SpikyKeepsAll(fields, i);
    }
    AllBelow(KeepUpTo(list, fields, 1, 1), |list|);
  }

  lemma {:induction false} AllBelow(keep: set<nat>, n: nat)
    requires forall i: nat | i < n :: i in keep
    ensures |Ascending(keep, n)| == n
  {
    if n > 0 {
      AllBelow(keep, n - 1);
    }
  }

  /**
    The comment promises at most `maxPoints + 2` points. That holds for every series exactly when the
    ceiling leaves room for two points per different field.
   */
  lemma DocumentedSizeExactly(maxPoints: Option<real>, fields: seq<string>)
    ensures (forall list: seq<Point> :: |Downsampled(list, maxPoints, fields)| <= Ceiling(maxPoints) + 2)
       <==> Ceiling(maxPoints) >= 2 * |Different(fields)|
  {
    hide Different, Downsampled;
    if Ceiling(maxPoints) >= 2 * |Different(fields)| {
      forall list: seq<Point>
        ensures |Downsampled(list, maxPoints, fields)| <= Ceiling(maxPoints) + 2
      {
        DownsampleSize(list, maxPoints, fields);
      }
    } else {
      SpikySeriesIsKeptWhole(fields, maxPoints);
      assert |Downsampled(SpikySeries(Different(fields)), maxPoints, fields)| > Ceiling(maxPoints) + 2;
    }
  }

  // ---------------------------------------------------------------------------------------------
  // Exactly which points are kept
  // ---------------------------------------------------------------------------------------------

  /** Point `i` is the first of `low..high` with the largest value of the field (or the smallest, for sign -1). */
  predicate FirstExtreme(list: seq<Point>, field: string, sign: real, low: int, high: int, i: nat)
    requires 0 <= low && high <= |list|
  {
    && low <= i < high && field in list[i]
    && forall k: nat | low <= k < high && field in list[k] ::
         sign * list[k][field] <= sign * list[i][field] && (k < i ==> sign * list[k][field] < sign * list[i][field])
  }

  lemma {:induction false} ExtremeExactly(list: seq<Point>, field: string, sign: real, low: nat, high: nat, i: nat)
    requires low <= high <= |list|
    ensures Extreme(list, field, sign, low, high) == Some(i) <==> FirstExtreme(list, field, sign, low, high, i)
    decreases high
  {
    if low < high {
      var best := Extreme(list, field, sign, low, high - 1);
      ExtremeExactly(list, field, sign, low, high - 1, i);
      if best.Some? {
        ExtremeExactly(list, field, sign, low, high - 1, best.value);
      }
      forall k: nat | low <= k < high - 1 && field in list[k]
        ensures best.Some? && sign * list[k][field] <= sign * list[best.value][field]
      {
        ExtremeIsExtreme(list, field, sign, low, high - 1, k);
      }
    }
  }

  /** The bounds of the buckets are whole parts of equal shares. */
  lemma BucketIsShare(n: nat, buckets: nat, b: nat)
    requires b < buckets
    ensures BucketStart(n, buckets, b) == b * n / buckets
    ensures BucketEnd(n, buckets, b) == (b + 1) * n / buckets
  {
    ShareFloor(n, buckets, b);
    if b + 1 == buckets {
      WholeShare(n, buckets);
    } else {
      ShareFloor(n, buckets, b + 1);
    }
  }

  lemma WholeShare(n: nat, buckets: nat)
    requires buckets > 0
    ensures buckets * n / buckets == n
  {
    QuotientIs(buckets * n, buckets, n);
  }

  lemma QuotientIs(a: nat, m: nat, q: nat)
    requires m > 0
    ensures a / m == q <==> q * m <= a < q * m + m
  {
    var p := a / m;
    assert a == p * m + a % m;
    if q < p {
      assert (q + 1) * m <= p * m;
    } else if p < q {
      assert (p + 1) * m <= q * m;
    }
  }

  lemma ShareFloor(n: nat, buckets: nat, b: nat)
    requires buckets > 0
    ensures BucketStart(n, buckets, b) == b * n / buckets
  {
    var size, m := n as real / buckets as real, buckets as real;
    var q := b * n / buckets;
    assert q * buckets <= b * n < q * buckets + buckets;
    assert m * size == n as real;
    ProductOfParts(b as real, m, size);
    assert (b * n) as real == b as real * n as real;
    assert (q * buckets) as real == q as real * m && (q * buckets + buckets) as real == (q as real + 1.0) * m;
    QuotientBetween(b as real * size, m, (b * n) as real, q as real, q as real + 1.0);
  }

  lemma ProductOfParts(b: real, m: real, size: real)
    ensures b * size * m == b * (m * size)
  {
  }

  lemma QuotientBetween(x: real, m: real, a: real, low: real, high: real)
    requires m > 0.0 && x * m == a && low * m <= a < high * m
    ensures low <= x < high
  {
    SameOrder(x, low, m);
    SameOrder(x, high, m);
  }

  lemma SameOrder(a: real, b: real, m: real)
    requires m > 0.0
    ensures a < b <==> a * m < b * m
  {
    if a < b {
      assert (b - a) * m > 0.0;
    } else {
      assert (a - b) * m >= 0.0;
    }
  }

  /** Bucket `b` keeps point `i`: the first minimum or maximum of a field asked for, or its first point if none is. */
  predicate KeptInBucket(list: seq<Point>, fields: seq<string>, buckets: nat, b: nat, i: nat)
    requires b < buckets
  {
    var low, high := b * |list| / buckets, (b + 1) * |list| / buckets;
    && 0 <= low && high <= |list|
    && low <= i < high
    && if fields == [] then i == low
       else exists f :: f in fields && (FirstExtreme(list, f, -1.0, low, high, i) || FirstExtreme(list, f, 1.0, low, high, i))
  }

  lemma BucketKeepsExactly(list: seq<Point>, fields: seq<string>, buckets: nat, b: nat, i: nat)
    requires b < buckets
    ensures i in BucketKeep(list, fields, BucketStart(|list|, buckets, b), BucketEnd(|list|, buckets, b))
       <==> KeptInBucket(list, fields, buckets, b, i)
  {
    var low, high := BucketStart(|list|, buckets, b), BucketEnd(|list|, buckets, b);
    BucketBounds(|list|, buckets, b);
    BucketIsShare(|list|, buckets, b);
    hide BucketStart, BucketEnd, FieldsKeep, FirstExtreme, Extreme;
    if fields != [] {
      FieldsKeepExactly(list, fields, low, high, i);
      forall f
        ensures i in FieldKeep(list, f, low, high) <==>
                FirstExtreme(list, f, -1.0, low, high, i) || FirstExtreme(list, f, 1.0, low, high, i)
      {
        ExtremeExactly(list, f, -1.0, low, high, i);
        ExtremeExactly(list, f, 1.0, low, high, i);
      }
      FirstExtremeInside(list, fields, low, high, i);
    }
  }

  lemma FirstExtremeInside(list: seq<Point>, fields: seq<string>, low: nat, high: nat, i: nat)
    requires low <= high <= |list|
    ensures forall f, sign: real | FirstExtreme(list, f, sign, low, high, i) :: low <= i < high
  {
  }

  lemma {:induction false} KeepUpToExactly(list: seq<Point>, fields: seq<string>, buckets: nat, n: nat, i: nat)
    requires list != [] && n <= buckets && buckets > 0
    ensures i in KeepUpTo(list, fields, buckets, n) <==>
            i == 0 || i == |list| - 1 || exists b: nat :: b < n && KeptInBucket(list, fields, buckets, b, i)
  {
    hide BucketKeep, KeptInBucket, BucketStart, BucketEnd;
    if n > 0 {
      KeepUpToExactly(list, fields, buckets, n - 1, i);
      BucketKeepsExactly(list, fields, buckets, n - 1, i);
    }
  }

  /**
    The thinned series exactly. Up to the ceiling, a whole number of at least 2, nothing is left out. A longer series
    is cut into as many equal shares as the ceiling has room for, two points per field asked for and at least one
    share; its ends are kept, and of each share the first minimum and the first maximum of every field.
   */
  lemma DownsampleExactly(list: seq<Point>, maxPoints: Option<real>, fields: seq<string>, ceiling: int, buckets: int)
      returns (kept: seq<nat>)
    requires ceiling == if maxPoints.Some? && maxPoints.value >= 2.0 then maxPoints.value.Floor else 2
    requires ceiling >= 2
    requires buckets == var room := ceiling / (if fields == [] then 2 else 2 * |fields|); if room < 1 then 1 else room
    ensures |list| <= ceiling ==> Downsampled(list, maxPoints, fields) == list
    ensures |list| > ceiling ==>
              var result := Downsampled(list, maxPoints, fields);
              && |kept| == |result| && (forall p, q | 0 <= p < q < |kept| :: kept[p] < kept[q])
              && (forall p | 0 <= p < |kept| :: kept[p] < |list| && result[p] == list[kept[p]])
              && forall i: nat | i < |list| ::
                   i in kept <==> i == 0 || i == |list| - 1 || exists b: nat :: b < buckets && KeptInBucket(list, fields, buckets, b, i)
  {
    hide KeepUpTo, KeptInBucket;
    assert ceiling == Ceiling(maxPoints) && buckets == BucketCount(ceiling, |fields|);
    hide BucketCount;
    kept := Kept(list, ceiling, fields);
    KeptInRange(list, ceiling, fields);
    if |list| > ceiling {
      AscendingIs(KeepUpTo(list, fields, buckets, buckets), |list|);
      forall i: nat | i < |list|
        ensures i in kept <==> i == 0 || i == |list| - 1 || exists b: nat :: b < buckets && KeptInBucket(list, fields, buckets, b, i)
      {
        KeepUpToExactly(list, fields, buckets, buckets, i);
      }
    }
  }
}
