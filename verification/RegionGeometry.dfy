/**
  Boxes, frames and the crop arithmetic of `region_proposal.py`.
  Coordinates that the program holds as Python ints are `int`; the ones that arrive as floats
  (motion boxes, margins) are `real`.
 */
module RegionGeometry {
  import opened Numbers
  import opened Wrappers

  datatype Frame = Frame(height: int, width: int)

  datatype Box = Box(x1: int, y1: int, x2: int, y2: int)

  /** A box as a caller hands it over: four numbers, or something `float`/`int` refuses. */
  datatype RawBox = Malformed | Quad(x1: real, y1: real, x2: real, y2: real)

  /** Python's `int(x)` on a float: truncation towards zero. */
  function Trunc(r: real): int { if r < 0.0 then -((-r).Floor) else r.Floor }

  /** Python's `round(x)` on a float: to the nearest int, ties to the even one. */
  function RoundHalfEven(r: real): int {
    var low := r.Floor;
    var rest := r - low as real;
    if rest < 0.5 then low
    else if rest > 0.5 then low + 1
    else if low % 2 == 0 then low else low + 1
  }

  function Area(b: Box): nat {
    Max(0, b.x2 - b.x1) * Max(0, b.y2 - b.y1)
  }

  predicate Intersects(a: Box, b: Box) {
    !(a.x2 < b.x1 || a.x1 > b.x2 || a.y1 > b.y2 || a.y2 < b.y1)
  }

  predicate Inside(outer: Box, inner: Box) {
    && inner.x1 >= outer.x1
    && inner.y1 >= outer.y1
    && inner.x2 <= outer.x2
    && inner.y2 <= outer.y2
  }

  predicate Nonempty(b: Box) { b.x1 < b.x2 && b.y1 < b.y2 }

  function FullFrame(frame: Frame): Box { Box(0, 0, frame.width, frame.height) }

  /** What a crop has to be for the slice `frame[y1:y2, x1:x2]` to be the crop that was computed. */
  predicate InFrame(frame: Frame, b: Box) { Nonempty(b) && Inside(FullFrame(frame), b) }

  predicate Covered(regions: seq<Box>, b: Box) {
    exists r :: r in regions && Inside(r, b)
  }

  function UnionBox(a: Box, b: Box): Box {
    Box(Min(a.x1, b.x1), Min(a.y1, b.y1), Max(a.x2, b.x2), Max(a.y2, b.y2))
  }

  /** Area of the rectangle two boxes share. */
  function Overlap(a: Box, b: Box): nat {
    Max(0, Min(a.x2, b.x2) - Max(a.x1, b.x1)) * Max(0, Min(a.y2, b.y2) - Max(a.y1, b.y1))
  }

  function Iou(a: Box, b: Box): real {
    var inter := Overlap(a, b);
    if inter <= 0 then 0.0
    else
      var union := Area(a) + Area(b) - inter;
      if union <= 0 then 0.0 else inter as real / union as real
  }

  function Clip(b: Box, frame: Frame): Option<Box> {
    var x1 := Max(0, Min(frame.width, b.x1));
    var y1 := Max(0, Min(frame.height, b.y1));
    var x2 := Max(0, Min(frame.width, b.x2));
    var y2 := Max(0, Min(frame.height, b.y2));
    if x2 <= x1 || y2 <= y1 then None else Some(Box(x1, y1, x2, y2))
  }

  function Rounded(raw: RawBox): Box
    requires raw.Quad?
  {
    Box(RoundHalfEven(raw.x1), RoundHalfEven(raw.y1), RoundHalfEven(raw.x2), RoundHalfEven(raw.y2))
  }

  function ClipBox(raw: RawBox, frame: Frame): Option<Box> {
    if raw.Malformed? then None else Clip(Rounded(raw), frame)
  }

  function ToRaw(b: Box): RawBox {
    Quad(b.x1 as real, b.y1 as real, b.x2 as real, b.y2 as real)
  }

  /** Side of the square before it is fitted to the frame: the margin, rounded down to a multiple of 4. */
  function RegionSide(box: Box, minSize: int, multiplier: real): int {
    Max(minSize, FloorTo4(WithMargin(Max(box.x2 - box.x1, box.y2 - box.y1), multiplier)))
  }

  function WithMargin(side: int, multiplier: real): real { side as real * multiplier }

  /** `int(r // 4 * 4)`. */
  function FloorTo4(r: real): int { (r / 4.0).Floor * 4 }

  /** Origin of a span of `length` centred on `low..high` and pushed back into `0..limit`. */
  function CentredOffset(low: int, high: int, length: int, limit: int): int {
    var centred := Trunc((high - low) as real / 2.0 + low as real - length as real / 2.0);
    Max(0, Min(centred, limit - length))
  }

  function CalculateRegion(frame: Frame, box: Box, minSize: int, multiplier: real): Box {
    var size := RegionSide(box, minSize, multiplier);
    var width := Max(4, Min(size, frame.width));
    var height := Max(4, Min(size, frame.height));
    var x := CentredOffset(box.x1, box.x2, width, frame.width);
    var y := CentredOffset(box.y1, box.y2, height, frame.height);
    var region := Box(x, y, x + width, y + height);
    var source := Clip(box, frame);
    if source.Some? && !Inside(region, source.value) then UnionBox(region, source.value) else region
  }

  /** Integer part of a number, sign kept. */
  predicate TowardsZero(r: real, n: int) {
    if r < 0.0 then (n - 1) as real < r <= n as real && n <= 0 else n as real <= r < (n + 1) as real
  }

  // ---------------------------------------------------------------------------------------------
  // Clipping and rounding
  // ---------------------------------------------------------------------------------------------

  /** Clipping yields the largest in-frame part: nothing survives exactly when box and frame share no area. */
  lemma ClipIsIntersection(b: Box, frame: Frame, p: Box)
    requires frame.width >= 0 && frame.height >= 0
    ensures Clip(b, frame).Some? ==> InFrame(frame, Clip(b, frame).value) && Inside(b, Clip(b, frame).value)
    ensures InFrame(frame, p) && Inside(b, p) ==> Clip(b, frame).Some? && Inside(Clip(b, frame).value, p)
  {
  }

  lemma RoundIsNearest(r: real, k: int)
    ensures -0.5 <= RoundHalfEven(r) as real - r <= 0.5
    ensures r == k as real ==> RoundHalfEven(r) == k
  {
  }

  lemma RoundTiesToEven(k: int)
    ensures RoundHalfEven(k as real + 0.5) % 2 == 0
  {
    assert (k as real + 0.5).Floor == k;
  }

  /** Boxes already inside the frame come back unchanged, so clipping twice is clipping once. */
  lemma ClipOfInFrame(b: Box, frame: Frame)
    requires InFrame(frame, b)
    ensures ClipBox(ToRaw(b), frame) == Some(b)
    ensures Clip(b, frame) == Some(b)
  {
    RoundIsNearest(b.x1 as real, b.x1);
    RoundIsNearest(b.y1 as real, b.y1);
    RoundIsNearest(b.x2 as real, b.x2);
    RoundIsNearest(b.y2 as real, b.y2);
    assert Rounded(ToRaw(b)) == b;
  }

  /** Containment is containment of every pixel. */
  lemma InsideIsPixelwise(outer: Box, inner: Box)
    requires inner.x1 < inner.x2 && inner.y1 < inner.y2
    ensures Inside(outer, inner) <==>
            forall x, y | inner.x1 <= x < inner.x2 && inner.y1 <= y < inner.y2 ::
              HasPixel(outer, x, y)
  {
    if forall x, y | inner.x1 <= x < inner.x2 && inner.y1 <= y < inner.y2 :: HasPixel(outer, x, y) {
      assert HasPixel(outer, inner.x1, inner.y1) && HasPixel(outer, inner.x2 - 1, inner.y2 - 1);
    }
  }

  predicate HasPixel(b: Box, x: int, y: int) { b.x1 <= x < b.x2 && b.y1 <= y < b.y2 }

  /** Boxes touch when they share a point, an edge or a corner included. */
  lemma IntersectsIsCommonPoint(a: Box, b: Box)
    requires a.x1 <= a.x2 && a.y1 <= a.y2 && b.x1 <= b.x2 && b.y1 <= b.y2
    ensures Intersects(a, b) <==> exists x, y :: HasPoint(a, x, y) && HasPoint(b, x, y)
  {
    var x, y := Max(a.x1, b.x1), Max(a.y1, b.y1);
    assert Intersects(a, b) ==> HasPoint(a, x, y) && HasPoint(b, x, y);
  }

  predicate HasPoint(b: Box, x: int, y: int) { b.x1 <= x <= b.x2 && b.y1 <= y <= b.y2 }

  // ---------------------------------------------------------------------------------------------
  // Crop regions
  // ---------------------------------------------------------------------------------------------

  /** Side of a crop before the frame limits it: `minSize`, or the largest multiple of 4 within the margin if that is more. */
  predicate CropSize(size: int, minSize: int, longer: int, multiplier: real) {
    var wish := longer as real * multiplier;
    if size == minSize then wish < (4 * (minSize / 4 + 1)) as real
    else size > minSize && size % 4 == 0 && size as real <= wish < (size + 4) as real
  }

  /**
    One axis of a crop: the box itself where it is the longer, otherwise `length` pixels around its middle, moved
    only as far as the frame border asks.
   */
  predicate CropSpan(low: int, high: int, length: int, limit: int, from: int, to: int) {
    if length <= high - low then from == low && to == high
    else
      && to == from + length
      && if low + high <= length then from == 0
         else if low + high + length >= 2 * limit then from == (if length < limit then limit - length else 0)
         else 2 * from <= low + high - length < 2 * (from + 1)
  }

  predicate CropPlace(frame: Frame, box: Box, size: int, crop: Box) {
    && CropSpan(box.x1, box.x2, Max(4, Min(size, frame.width)), frame.width, crop.x1, crop.x2)
    && CropSpan(box.y1, box.y2, Max(4, Min(size, frame.height)), frame.height, crop.y1, crop.y2)
  }

  /** `crop` is the crop of an in-frame box. */
  ghost predicate CropOf(frame: Frame, box: Box, minSize: int, multiplier: real, crop: Box) {
    exists size: int | CropSize(size, minSize, Max(box.x2 - box.x1, box.y2 - box.y1), multiplier) ::
      CropPlace(frame, box, size, crop)
  }

  lemma RegionSideIsCropSize(box: Box, longer: int, minSize: int, multiplier: real)
    requires longer == Max(box.x2 - box.x1, box.y2 - box.y1)
    ensures CropSize(RegionSide(box, minSize, multiplier), minSize, longer, multiplier)
  {
    hide FloorTo4, WithMargin;
    MarginIsProduct(longer, multiplier);
    FloorTo4Exactly(WithMargin(longer, multiplier), minSize);
  }

  lemma MarginIsProduct(side: int, multiplier: real)
    ensures WithMargin(side, multiplier) == side as real * multiplier
  {
  }

  lemma FloorTo4Exactly(r: real, n: int)
    ensures FloorTo4(r) % 4 == 0 && FloorTo4(r) as real <= r < (FloorTo4(r) + 4) as real
    ensures FloorTo4(r) > n || r < (4 * (n / 4 + 1)) as real
  {
    var k, q := (r / 4.0).Floor, n / 4;
    assert 4 * q <= n < 4 * q + 4;
    assert k > q ==> k * 4 > n;
  }

  lemma OffsetSpans(low: int, high: int, length: int, limit: int)
    requires 0 <= low < high <= limit
    ensures var from := CentredOffset(low, high, length, limit);
            CropSpan(low, high, length, limit, Min(from, low), Max(from + length, high))
  {
    var middle := (high - low) as real / 2.0 + low as real - length as real / 2.0;
    assert 2.0 * middle == (low + high - length) as real;
  }

  lemma RegionIsPlaced(frame: Frame, box: Box, minSize: int, multiplier: real)
    requires InFrame(frame, box)
    ensures CropPlace(frame, box, RegionSide(box, minSize, multiplier), CalculateRegion(frame, box, minSize, multiplier))
  {
    hide RegionSide, CentredOffset, CropSpan;
    var size := RegionSide(box, minSize, multiplier);
    var width, height := Max(4, Min(size, frame.width)), Max(4, Min(size, frame.height));
    OffsetSpans(box.x1, box.x2, width, frame.width);
    OffsetSpans(box.y1, box.y2, height, frame.height);
    var x, y := CentredOffset(box.x1, box.x2, width, frame.width), CentredOffset(box.y1, box.y2, height, frame.height);
    ClipOfInFrame(box, frame);
    assert CalculateRegion(frame, box, minSize, multiplier) == UnionBox(Box(x, y, x + width, y + height), box);
  }

  /** The crop of an in-frame box, size and place. */
  lemma CropExactly(frame: Frame, box: Box, minSize: int, multiplier: real)
    requires InFrame(frame, box)
    ensures CropOf(frame, box, minSize, multiplier, CalculateRegion(frame, box, minSize, multiplier))
  {
    hide RegionSide, CalculateRegion, CropPlace, CropSize;
    RegionSideIsCropSize(box, Max(box.x2 - box.x1, box.y2 - box.y1), minSize, multiplier);
    RegionIsPlaced(frame, box, minSize, multiplier);
  }

  /** Size and place leave no choice. */
  lemma CropIsUnique(frame: Frame, box: Box, minSize: int, multiplier: real, a: Box, b: Box)
    requires CropOf(frame, box, minSize, multiplier, a) && CropOf(frame, box, minSize, multiplier, b)
    ensures a == b
  {
    hide CropSpan, CropSize;
    var longer := Max(box.x2 - box.x1, box.y2 - box.y1);
    var s: int :| CropSize(s, minSize, longer, multiplier) && CropPlace(frame, box, s, a);
    var r: int :| CropSize(r, minSize, longer, multiplier) && CropPlace(frame, box, r, b);
    SizeIsUnique(s, r, minSize, longer, multiplier);
    SpanIsUnique(box.x1, box.x2, Max(4, Min(s, frame.width)), frame.width, a.x1, a.x2, b.x1, b.x2);
    SpanIsUnique(box.y1, box.y2, Max(4, Min(s, frame.height)), frame.height, a.y1, a.y2, b.y1, b.y2);
  }

  lemma SizeIsUnique(s: int, r: int, minSize: int, longer: int, multiplier: real)
    requires CropSize(s, minSize, longer, multiplier) && CropSize(r, minSize, longer, multiplier)
    ensures s == r
  {
  }

  lemma SpanIsUnique(low: int, high: int, length: int, limit: int, from: int, to: int, start: int, end: int)
    requires CropSpan(low, high, length, limit, from, to) && CropSpan(low, high, length, limit, start, end)
    ensures from == start && to == end
  {
  }

  /**
    A crop is no larger than it has to be: each side within the box side, the minimum size and the margin, the last
    two cut to the frame; and on each axis it is centred on the box to half a pixel or lies against the frame border.
   */
  lemma CropIsTight(frame: Frame, box: Box, longer: int, minSize: int, multiplier: real)
    requires InFrame(frame, box) && longer == Max(box.x2 - box.x1, box.y2 - box.y1)
    ensures var crop := CalculateRegion(frame, box, minSize, multiplier);
            var w, h := box.x2 - box.x1, box.y2 - box.y1;
            var most := MaxR(minSize as real, longer as real * multiplier);
            && (crop.x2 - crop.x1) as real <= MaxR(MaxR(4.0, w as real), MinR(frame.width as real, most))
            && (crop.y2 - crop.y1) as real <= MaxR(MaxR(4.0, h as real), MinR(frame.height as real, most))
            && (0 <= (box.x1 + box.x2) - (crop.x1 + crop.x2) <= 1 || crop.x1 == 0 || crop.x2 == frame.width)
            && (0 <= (box.y1 + box.y2) - (crop.y1 + crop.y2) <= 1 || crop.y1 == 0 || crop.y2 == frame.height)
  {
    hide CalculateRegion, CropPlace, CropSize;
    CropExactly(frame, box, minSize, multiplier);
    var crop := CalculateRegion(frame, box, minSize, multiplier);
    var size: int :| CropSize(size, minSize, longer, multiplier) && CropPlace(frame, box, size, crop);
    SizeIsTight(size, minSize, longer, multiplier);
    PlaceIsTight(frame, box, size, MaxR(minSize as real, longer as real * multiplier), crop);
  }

  lemma PlaceIsTight(frame: Frame, box: Box, size: int, most: real, crop: Box)
    requires InFrame(frame, box) && CropPlace(frame, box, size, crop) && size as real <= most
    ensures (crop.x2 - crop.x1) as real <= MaxR(MaxR(4.0, (box.x2 - box.x1) as real), MinR(frame.width as real, most))
    ensures (crop.y2 - crop.y1) as real <= MaxR(MaxR(4.0, (box.y2 - box.y1) as real), MinR(frame.height as real, most))
    ensures 0 <= (box.x1 + box.x2) - (crop.x1 + crop.x2) <= 1 || crop.x1 == 0 || crop.x2 == frame.width
    ensures 0 <= (box.y1 + box.y2) - (crop.y1 + crop.y2) <= 1 || crop.y1 == 0 || crop.y2 == frame.height
  {
    hide CropSpan;
    SpanIsTight(box.x1, box.x2, size, frame.width, crop.x1, crop.x2);
    SpanIsTight(box.y1, box.y2, size, frame.height, crop.y1, crop.y2);
  }

  lemma SizeIsTight(size: int, minSize: int, longer: int, multiplier: real)
    requires CropSize(size, minSize, longer, multiplier)
    ensures size as real <= MaxR(minSize as real, longer as real * multiplier)
  {
  }

  lemma SpanIsTight(low: int, high: int, size: int, limit: int, from: int, to: int)
    requires 0 <= low < high <= limit && CropSpan(low, high, Max(4, Min(size, limit)), limit, from, to)
    ensures to - from <= Max(Max(4, high - low), Min(limit, size))
    ensures 0 <= (low + high) - (from + to) <= 1 || from == 0 || to == limit
  {
  }

  /** The crop never cuts the visible part of the box it was built for. */
  lemma RegionCoversSource(frame: Frame, box: Box, minSize: int, multiplier: real)
    ensures Clip(box, frame).Some? ==>
              Inside(CalculateRegion(frame, box, minSize, multiplier), Clip(box, frame).value)
  {
  }

  /** A crop lies inside the frame, for whatever box, size and margin, exactly when the frame is at least 4 by 4. */
  lemma RegionInFrameIff(frame: Frame, box: Box, minSize: int, multiplier: real)
    requires frame.width >= 0 && frame.height >= 0
    ensures InFrame(frame, CalculateRegion(frame, box, minSize, multiplier)) <==> frame.width >= 4 && frame.height >= 4
  {
  }

  // ---------------------------------------------------------------------------------------------
  // Intersection over union
  // ---------------------------------------------------------------------------------------------

  lemma ProductMonotone(p: nat, q: nat, w: nat, h: nat)
    requires p <= w && q <= h
    ensures p * q <= w * h
  {
    assert (w - p) * q >= 0 && w * (h - q) >= 0;
  }

  lemma OverlapBound(a: Box, b: Box)
    ensures Overlap(a, b) <= Area(a)
  {
    ProductMonotone(Max(0, Min(a.x2, b.x2) - Max(a.x1, b.x1)), Max(0, Min(a.y2, b.y2) - Max(a.y1, b.y1)),
                    Max(0, a.x2 - a.x1), Max(0, a.y2 - a.y1));
  }

  lemma IouSymmetric(a: Box, b: Box)
    ensures Iou(a, b) == Iou(b, a)
  {
  }

  lemma IouRange(a: Box, b: Box)
    ensures 0.0 <= Iou(a, b) <= 1.0
  {
    OverlapBound(a, b);
    OverlapBound(b, a);
    var inter, union := Overlap(a, b), Area(a) + Area(b) - Overlap(a, b);
    if 0 < inter {
      FractionAtMostOne(inter, union);
    }
  }

  lemma IouOfSelf(a: Box)
    requires Nonempty(a)
    ensures Iou(a, a) == 1.0
  {
    var n := Area(a);
    assert Overlap(a, a) == n && n >= 1;
    SelfQuotient(n as real);
  }

  /** The ratio of the largest common box to what the two boxes cover together; 0 if they share no area. */
  lemma IouExactly(a: Box, b: Box)
    ensures var left, right := Max(a.x1, b.x1), Min(a.x2, b.x2);
            var top, bottom := Max(a.y1, b.y1), Min(a.y2, b.y2);
            if left < right && top < bottom then
              var common := (right - left) * (bottom - top);
              var all := (a.x2 - a.x1) * (a.y2 - a.y1) + (b.x2 - b.x1) * (b.y2 - b.y1) - common;
              && all > 0
              && Iou(a, b) * all as real == common as real
            else Iou(a, b) == 0.0
  {
    IouIsQuotient(a, b);
    AreaWrittenOut(a, b);
    hide Iou, Area, Overlap;
  }

  lemma IouIsQuotient(a: Box, b: Box)
    ensures var all := Area(a) + Area(b) - Overlap(a, b);
            if Overlap(a, b) > 0 then all > 0 && Iou(a, b) * all as real == Overlap(a, b) as real else Iou(a, b) == 0.0
  {
    OverlapBound(a, b);
    OverlapBound(b, a);
    if Overlap(a, b) > 0 {
      var all := Area(a) + Area(b) - Overlap(a, b);
      assert all > 0 by {
        assert Overlap(a, b) == Overlap(b, a);
      }
      QuotientTimes(Overlap(a, b) as real, all as real);
    }
  }

  lemma AreaWrittenOut(a: Box, b: Box)
    ensures var left, right := Max(a.x1, b.x1), Min(a.x2, b.x2);
            var top, bottom := Max(a.y1, b.y1), Min(a.y2, b.y2);
            if left < right && top < bottom then
              && Overlap(a, b) == (right - left) * (bottom - top) > 0
              && Area(a) == (a.x2 - a.x1) * (a.y2 - a.y1) && Area(b) == (b.x2 - b.x1) * (b.y2 - b.y1)
            else Overlap(a, b) == 0
  {
  }

  lemma QuotientTimes(x: real, y: real)
    requires y != 0.0
    ensures x / y * y == x
  {
  }

  lemma SelfQuotient(x: real)
    requires x != 0.0
    ensures x / x == 1.0
  {
  }

  lemma FractionAtMostOne(part: int, whole: int)
    requires 0 <= part <= whole && 0 < whole
    ensures 0.0 <= part as real / whole as real <= 1.0
  {
  }
}
