/**
  `dedupe_by_iou`: one object seen by two neighbouring crops becomes one detection, the one with the
  highest score, without disturbing the order of the others.
 */
module IouDedupe {
  import opened RegionGeometry

  /** What the region code reads of a detection; `payload` stands for everything it passes on unread. */
  datatype Detection = Detection(
    box: Box,
    classId: int,
    score: real,
    payload: nat,
    stationary: bool,
    stationaryFrames: nat)

  // ---------------------------------------------------------------------------------------------
  // The stable sort by descending score
  // ---------------------------------------------------------------------------------------------

  /** `i` is looked at before `j`. */
  predicate Outranks(items: seq<Detection>, i: nat, j: nat)
    requires i < |items| && j < |items|
  {
    items[i].score > items[j].score || (items[i].score == items[j].score && i < j)
  }

  predicate Ranking(items: seq<Detection>, order: seq<nat>) {
    && (forall p | 0 <= p < |order| :: order[p] < |items|)
    && (forall p, q | 0 <= p < q < |order| :: Outranks(items, order[p], order[q]))
  }

  /** Insert a later index after everything that scores at least as much. */
  function InsertByScore(items: seq<Detection>, order: seq<nat>, i: nat): (r: seq<nat>)
    requires i < |items| && forall p | 0 <= p < |order| :: order[p] < i
    ensures forall j :: j in r <==> j in order || j == i
  {
    if order == [] || items[order[0]].score < items[i].score then [i] + order
    else [order[0]] + InsertByScore(items, order[1..], i)
  }

  lemma {:induction false} InsertKeepsRanking(items: seq<Detection>, order: seq<nat>, i: nat)
    requires i < |items| && Ranking(items, order) && forall p | 0 <= p < |order| :: order[p] < i
    ensures Ranking(items, InsertByScore(items, order, i))
  {
    if order == [] {
      FirstRanks(items, i, []);
    } else if items[order[0]].score < items[i].score {
      forall p | 0 <= p < |order|
        ensures Outranks(items, i, order[p])
      {
        assert p > 0 ==> Outranks(items, order[0], order[p]);
      }
      FirstRanks(items, i, order);
    } else {
      var rest := InsertByScore(items, order[1..], i);
      InsertKeepsRanking(items, order[1..], i);
      forall p | 0 <= p < |rest|
        ensures Outranks(items, order[0], rest[p])
      {
        assert rest[p] in rest;
        if rest[p] != i {
          var q :| 1 <= q < |order| && order[q] == rest[p];
        }
      }
      FirstRanks(items, order[0], rest);
    }
  }

  lemma FirstRanks(items: seq<Detection>, first: nat, rest: seq<nat>)
    requires first < |items| && Ranking(items, rest)
    requires forall p | 0 <= p < |rest| :: Outranks(items, first, rest[p])
    ensures Ranking(items, [first] + rest)
  {
    hide Outranks;
  }

  function ByScore(items: seq<Detection>, n: nat): (order: seq<nat>)
    requires n <= |items|
    ensures Ranking(items, order)
    ensures forall j: nat :: j in order <==> j < n
  {
    if n == 0 then []
    else
      var before := ByScore(items, n - 1);
      assert forall p | 0 <= p < |before| :: before[p] in before;
      InsertKeepsRanking(items, before, n - 1);
      InsertByScore(items, before, n - 1)
  }

  // ---------------------------------------------------------------------------------------------
  // The greedy pass and its loop form
  // ---------------------------------------------------------------------------------------------

  predicate Clash(a: Detection, b: Detection, threshold: real) {
    a.classId == b.classId && Iou(a.box, b.box) >= threshold
  }

  function KeptOf(items: seq<Detection>, threshold: real, order: seq<nat>): (kept: seq<nat>)
    requires forall p | 0 <= p < |order| :: order[p] < |items|
    ensures forall j | j in kept :: j in order && j < |items|
  {
    if order == [] then []
    else
      var i := order[|order| - 1];
      var before := KeptOf(items, threshold, order[..|order| - 1]);
      if exists j | j in before :: Clash(items[j], items[i], threshold) then before else before + [i]
  }

  /** The items whose index was kept, back in input order. */
  function Select(items: seq<Detection>, kept: seq<nat>, n: nat): seq<Detection>
    requires n <= |items|
  {
    if n == 0 then []
    else if n - 1 in kept then Select(items, kept, n - 1) + [items[n - 1]]
    else Select(items, kept, n - 1)
  }

  function Kept(items: seq<Detection>, threshold: real): seq<nat> {
    KeptOf(items, threshold, ByScore(items, |items|))
  }

  function Dedupe(items: seq<Detection>, threshold: real): seq<Detection> {
    Select(items, Kept(items, threshold), |items|)
  }

  method Duplicated(items: seq<Detection>, kept: seq<nat>, item: Detection, threshold: real) returns (found: bool)
    requires forall m | 0 <= m < |kept| :: kept[m] < |items|
    ensures found <==> exists m | 0 <= m < |kept| :: Clash(items[kept[m]], item, threshold)
  {
    for k := 0 to |kept|
      invariant forall m | 0 <= m < k :: !Clash(items[kept[m]], item, threshold)
    {
      var other := items[kept[k]];
      if other.classId != item.classId {
        continue;
      }
      if Iou(other.box, item.box) >= threshold {
        return true;
      }
    }
    return false;
  }

  method KeepBest(items: seq<Detection>, threshold: real, indexed: seq<nat>) returns (kept: seq<nat>)
    requires forall p | 0 <= p < |indexed| :: indexed[p] < |items|
    ensures kept == KeptOf(items, threshold, indexed)
  {
    kept := [];
    for p := 0 to |indexed|
      invariant kept == KeptOf(items, threshold, indexed[..p])
    {
      assert indexed[..p + 1][..p] == indexed[..p];
      assert forall m | 0 <= m < |kept| :: kept[m] in kept;
      var duplicated := Duplicated(items, kept, items[indexed[p]], threshold);
      if !duplicated {
        kept := kept + [indexed[p]];
      }
    }
    assert indexed[..|indexed|] == indexed;
  }

  method DedupeByIou(items: seq<Detection>, threshold: real) returns (result: seq<Detection>)
    ensures result == Dedupe(items, threshold)
  {
    var indexed := ByScore(items, |items|);
    var kept := KeepBest(items, threshold, indexed);
    result := [];
    for i := 0 to |items|
      invariant result == Select(items, kept, i)
    {
      if i in kept {
        result := result + [items[i]];
      }
    }
  }

  // ---------------------------------------------------------------------------------------------
  // What is kept
  // ---------------------------------------------------------------------------------------------

  predicate SilencedBy(items: seq<Detection>, threshold: real, j: nat, i: nat)
    requires j < |items| && i < |items|
  {
    Outranks(items, j, i) && Clash(items[j], items[i], threshold)
  }

  lemma {:induction false} KeptOfExactly(items: seq<Detection>, threshold: real, order: seq<nat>, i: nat)
    requires Ranking(items, order) && i in order
    ensures i in KeptOf(items, threshold, order) <==>
            !exists j :: j in KeptOf(items, threshold, order) && SilencedBy(items, threshold, j, i)
  {
    hide Clash;
    var n := |order| - 1;
    var last := order[n];
    var before := KeptOf(items, threshold, order[..n]);
    assert order == order[..n] + [last];
    EarlierOutrankLast(items, order);
    if i != last {
      KeptOfExactly(items, threshold, order[..n], i);
      assert i in order[..n] && !SilencedBy(items, threshold, last, i);
    } else {
      assert forall j | j in before :: SilencedBy(items, threshold, j, last) <==> Clash(items[j], items[last], threshold);
    }
    hide Outranks, Ranking, SilencedBy;
  }

  lemma EarlierOutrankLast(items: seq<Detection>, order: seq<nat>)
    requires Ranking(items, order) && order != []
    ensures var n := |order| - 1;
            && order[n] !in order[..n]
            && forall j | j in order[..n] :: j < |items| && Outranks(items, j, order[n]) && !Outranks(items, order[n], j)
  {
    var n := |order| - 1;
    forall j | j in order[..n]
      ensures j < |items| && Outranks(items, j, order[n]) && !Outranks(items, order[n], j)
    {
      var q :| 0 <= q < n && order[q] == j;
      assert Outranks(items, order[q], order[n]);
    }
  }

  /**
    Exactly which detections survive: those that no surviving detection of the same class, ahead of
    them in score order, overlaps by the threshold.
   */
  lemma KeptExactly(items: seq<Detection>, threshold: real, i: nat)
    requires i < |items|
    ensures i in Kept(items, threshold) <==>
            !exists j :: j in Kept(items, threshold) && SilencedBy(items, threshold, j, i)
  {
    KeptOfExactly(items, threshold, ByScore(items, |items|), i);
  }

  /** No two survivors of one class overlap by the threshold. */
  lemma KeptSeparated(items: seq<Detection>, threshold: real, i: nat, j: nat)
    requires i in Kept(items, threshold) && j in Kept(items, threshold) && i != j
    ensures i < |items| && j < |items| && !Clash(items[i], items[j], threshold)
  {
    IouSymmetric(items[i].box, items[j].box);
    KeptExactly(items, threshold, i);
    KeptExactly(items, threshold, j);
    assert Outranks(items, i, j) || Outranks(items, j, i);
  }

  // ---------------------------------------------------------------------------------------------
  // The output list
  // ---------------------------------------------------------------------------------------------

  /** Positions, in the input, of the first `|Select(items, kept, n)|` outputs. */
  function Positions(kept: seq<nat>, n: nat): (r: seq<nat>)
    ensures forall p | 0 <= p < |r| :: r[p] < n && r[p] in kept
    ensures forall p, q | 0 <= p < q < |r| :: r[p] < r[q]
    ensures forall i: nat | i < n && i in kept :: i in r
  {
    if n == 0 then []
    else if n - 1 in kept then Positions(kept, n - 1) + [n - 1]
    else Positions(kept, n - 1)
  }

  lemma {:induction false} SelectAtPositions(items: seq<Detection>, kept: seq<nat>, n: nat)
    requires n <= |items|
    ensures |Select(items, kept, n)| == |Positions(kept, n)|
    ensures forall p | 0 <= p < |Positions(kept, n)| :: Select(items, kept, n)[p] == items[Positions(kept, n)[p]]
  {
    if n > 0 {
      SelectAtPositions(items, kept, n - 1);
    }
  }

  predicate Separated(items: seq<Detection>, threshold: real) {
    forall i, j | 0 <= i < j < |items| :: !Clash(items[i], items[j], threshold)
  }

  /**
    The output is an in-order subsequence of the input without same-class overlaps, and everything
    left out is represented: a kept detection of its class overlaps it and scores at least as much.
   */
  lemma DedupeProperties(items: seq<Detection>, threshold: real) returns (positions: seq<nat>)
    ensures forall p, q | 0 <= p < q < |positions| :: positions[p] < positions[q]
    ensures |positions| == |Dedupe(items, threshold)|
    ensures forall p | 0 <= p < |positions| ::
              positions[p] < |items| && Dedupe(items, threshold)[p] == items[positions[p]]
    ensures Separated(Dedupe(items, threshold), threshold)
    ensures forall d | d in items :: Represented(d, Dedupe(items, threshold), threshold)
  {
    var kept := Kept(items, threshold);
    var result := Dedupe(items, threshold);
    positions := Positions(kept, |items|);
    SelectAtPositions(items, kept, |items|);
    forall p, q | 0 <= p < q < |result|
      ensures !Clash(result[p], result[q], threshold)
    {
      KeptSeparated(items, threshold, positions[p], positions[q]);
    }
    forall d | d in items
      ensures Represented(d, result, threshold)
    {
      var i: nat :| i < |items| && items[i] == d;
      KeptExactly(items, threshold, i);
      var j := if i in kept then i else (var j :| j in kept && SilencedBy(items, threshold, j, i); j);
      var p :| 0 <= p < |positions| && positions[p] == j;
      assert result[p] == items[j] && result[p] in result;
    }
  }

  /**
    The output written out: the detections, in input order, that no survivor of their class overlaps by the threshold
    while scoring more, or as much and standing earlier.
   */
  lemma DedupeExactly(items: seq<Detection>, threshold: real) returns (at: seq<nat>)
    ensures forall p, q | 0 <= p < q < |at| :: at[p] < at[q]
    ensures |at| == |Dedupe(items, threshold)|
    ensures forall p | 0 <= p < |at| :: at[p] < |items| && Dedupe(items, threshold)[p] == items[at[p]]
    ensures forall i: nat | i < |items| ::
              i in at <==> forall j: nat | j in at && items[j].classId == items[i].classId && Iou(items[j].box, items[i].box) >= threshold ::
                             items[i].score > items[j].score || (items[i].score == items[j].score && i <= j)
  {
    hide Iou;
    var kept := Kept(items, threshold);
    at := Positions(kept, |items|);
    SelectAtPositions(items, kept, |items|);
    assert forall j: nat :: j in at <==> j in kept;
    forall i: nat | i < |items|
      ensures i in at <==> !exists j :: j in kept && SilencedBy(items, threshold, j, i)
    {
      KeptExactly(items, threshold, i);
    }
    hide Kept, Positions;
  }

  /** `d` is in the list, or a same-class detection scoring at least as much overlaps it there. */
  predicate Represented(d: Detection, list: seq<Detection>, threshold: real) {
    d in list || exists k | k in list :: Clash(k, d, threshold) && k.score >= d.score
  }

  lemma {:induction false} SelectAll(items: seq<Detection>, kept: seq<nat>, n: nat)
    requires n <= |items| && forall i: nat | i < n :: i in kept
    ensures Select(items, kept, n) == items[..n]
  {
    if n > 0 {
      SelectAll(items, kept, n - 1);
    }
  }

  /** A list without same-class overlaps is left alone. */
  lemma SeparatedIsFixed(items: seq<Detection>, threshold: real)
    requires Separated(items, threshold)
    ensures Dedupe(items, threshold) == items
  {
    var kept := Kept(items, threshold);
    forall i: nat | i < |items|
      ensures i in kept
    {
      KeptExactly(items, threshold, i);
      forall j | j in kept && SilencedBy(items, threshold, j, i)
        ensures false
      {
        IouSymmetric(items[i].box, items[j].box);
      }
    }
    SelectAll(items, kept, |items|);
  }

  /** A second pass changes nothing. */
  lemma DedupeIdempotent(items: seq<Detection>, threshold: real)
    ensures Dedupe(Dedupe(items, threshold), threshold) == Dedupe(items, threshold)
  {
    var positions := DedupeProperties(items, threshold);
    SeparatedIsFixed(Dedupe(items, threshold), threshold);
  }
}
