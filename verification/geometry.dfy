/**
 Integer plane geometry with Qt's `QPoint`, `QSize` and `QRect` conventions,
 as used by the snipping tool's rubber-band selector.

 A `Rect` is stored as top-left corner plus extent. A rectangle built from two
 corners includes both of them, so its width is `right - left + 1`, and a
 point is inside a rectangle when it lies between `left` and
 `left + width - 1` (and likewise vertically).
 */
module Geometry {

  datatype Point = Point(x: int, y: int)

  /** A `QSize`; the default-constructed size is the invalid `(-1, -1)`. */
  datatype Size = Size(width: int, height: int)

  datatype Rect = Rect(x: int, y: int, width: int, height: int)

  /** `QPoint()`: the origin. */
  const Origin: Point := Point(0, 0)

  /** `QSize()`: an invalid size with both extents `-1`. */
  const InvalidSize: Size := Size(-1, -1)

  /** `QRect()`: the null rectangle at the origin, with zero extents. */
  const NullRect: Rect := Rect(0, 0, 0, 0)

  function Min(a: int, b: int): int { if a <= b then a else b }

  function Max(a: int, b: int): int { if a <= b then b else a }

  function Abs(a: int): int { if a < 0 then -a else a }

  /** `QPoint - QPoint`: componentwise difference. */
  function Sub(p: Point, q: Point): (d: Point)
    ensures d.x + q.x == p.x && d.y + q.y == p.y
  {
    Point(p.x - q.x, p.y - q.y)
  }

  function TopLeft(r: Rect): Point { Point(r.x, r.y) }

  function SizeOf(r: Rect): Size { Size(r.width, r.height) }

  /** `QRect::right()`: the rightmost column, inclusive. */
  function Right(r: Rect): int { r.x + r.width - 1 }

  /** `QRect::bottom()`: the lowest row, inclusive. */
  function Bottom(r: Rect): int { r.y + r.height - 1 }

  /** `QRect(QPoint topLeft, QSize size)`. */
  function FromPointSize(p: Point, s: Size): (r: Rect)
    ensures TopLeft(r) == p && SizeOf(r) == s
  {
    Rect(p.x, p.y, s.width, s.height)
  }

  /** `QRect(QPoint topLeft, QPoint bottomRight)`: both corners are part of the
      rectangle, so the stored right and bottom edges are exactly `q`. */
  function FromCorners(p: Point, q: Point): (r: Rect)
    ensures TopLeft(r) == p
    ensures Right(r) == q.x && Bottom(r) == q.y
  {
    Rect(p.x, p.y, q.x - p.x + 1, q.y - p.y + 1)
  }

  /** `QRect::contains(QPoint)`, non-proper: inclusive on all four edges.
      A rectangle with a zero or negative extent contains no point here. */
  predicate Contains(r: Rect, p: Point)
    ensures Contains(r, p) ==> r.width >= 1 && r.height >= 1
  {
    r.x <= p.x <= Right(r) && r.y <= p.y <= Bottom(r)
  }

  /** A point lies in a rectangle exactly when its offset from the top-left
      corner is inside `[0, width) x [0, height)`. */
  lemma ContainsIffOffsetInSize(r: Rect, p: Point)
    ensures var d := Sub(p, TopLeft(r));
            Contains(r, p) <==> 0 <= d.x < r.width && 0 <= d.y < r.height
  {
  }

  /** `QRect::normalized()` as Qt 6 computes it: when `width() < 0` the left
      and right edges are exchanged and each moves one pixel inward (the new
      left edge is one past the old right edge, the new right edge one before
      the old left edge), so the width becomes `-width()`; likewise vertically.
      A zero or positive extent is left as it is (for a zero extent Qt's
      exchange gives back the same edges). */
  function Normalized(r: Rect): (n: Rect)
    ensures n.width >= 0 && n.height >= 0
    ensures r.width >= 0 ==> n.x == r.x && n.width == r.width
    ensures r.width < 0 ==> n.x == Right(r) + 1 && Right(n) == r.x - 1
    ensures r.height >= 0 ==> n.y == r.y && n.height == r.height
    ensures r.height < 0 ==> n.y == Bottom(r) + 1 && Bottom(n) == r.y - 1
  {
    var (x, w) := if r.width < 0 then (r.x + r.width, -r.width) else (r.x, r.width);
    var (y, h) := if r.height < 0 then (r.y + r.height, -r.height) else (r.y, r.height);
    Rect(x, y, w, h)
  }

  /** Normalizing twice is the same as normalizing once. */
  lemma NormalizedIdempotent(r: Rect)
    ensures Normalized(Normalized(r)) == Normalized(r)
  {
  }

  /** The edges of `QRect(p, q).normalized()`: along an axis where `q` is not
      before `p` they are `p` and `q` themselves; where `q` is before `p` the
      rectangle runs from one past `q` to one before `p`. */
  predicate CornerSpanEdges(r: Rect, p: Point, q: Point)
  {
    && (q.x >= p.x ==> r.x == p.x && Right(r) == q.x)
    && (q.x < p.x ==> r.x == q.x + 1 && Right(r) == p.x - 1)
    && (q.y >= p.y ==> r.y == p.y && Bottom(r) == q.y)
    && (q.y < p.y ==> r.y == q.y + 1 && Bottom(r) == p.y - 1)
  }

  /** The normalized two-corner rectangle has exactly the edges above. */
  lemma NormalizedCornersEdges(p: Point, q: Point)
    ensures CornerSpanEdges(Normalized(FromCorners(p, q)), p, q)
  {
  }

  /** The rectangle spanned by two corner points: its top-left corner is their
      componentwise minimum and both points lie inside it. */
  function Span(p: Point, q: Point): (r: Rect)
    ensures r.width >= 1 && r.height >= 1
    ensures TopLeft(r) == Point(Min(p.x, q.x), Min(p.y, q.y))
    ensures Right(r) == Max(p.x, q.x) && Bottom(r) == Max(p.y, q.y)
    ensures Contains(r, p) && Contains(r, q)
  {
    Rect(Min(p.x, q.x), Min(p.y, q.y), Abs(q.x - p.x) + 1, Abs(q.y - p.y) + 1)
  }

  /** The points of a span are exactly those lying between its two corners. */
  lemma SpanContainsIff(p: Point, q: Point, z: Point)
    ensures Contains(Span(p, q), z) <==>
              Min(p.x, q.x) <= z.x <= Max(p.x, q.x) && Min(p.y, q.y) <= z.y <= Max(p.y, q.y)
  {
  }

  /** Swapping the two corners gives the same rectangle. */
  lemma SpanSymmetric(p: Point, q: Point)
    ensures Span(p, q) == Span(q, p)
  {
  }

  /** Corners already in top-left / bottom-right order span exactly Qt's
      two-corner rectangle. */
  lemma SpanOfOrderedCorners(p: Point, q: Point)
    requires p.x <= q.x && p.y <= q.y
    ensures Span(p, q) == FromCorners(p, q)
  {
  }

  /** A press and release at the same point span a single pixel. */
  lemma SpanOfOnePoint(p: Point)
    ensures Span(p, p) == Rect(p.x, p.y, 1, 1)
  {
  }

  /** Normalizing the two-corner rectangle agrees with the span exactly when
      `q` is neither left of nor above `p`. Otherwise the normalized rectangle
      is two pixels narrower (or shorter) than the span. */
  lemma NormalizedCornersIsSpanIff(p: Point, q: Point)
    ensures Normalized(FromCorners(p, q)) == Span(p, q) <==> q.x >= p.x && q.y >= p.y
  {
    // When q.x < p.x the normalized width is two less than the span's, and
    // likewise for the height; Dafny finds this from the two contracts.
  }

  /** Every point of the normalized two-corner rectangle lies in the span. */
  lemma NormalizedCornersWithinSpan(p: Point, q: Point, z: Point)
    ensures Contains(Normalized(FromCorners(p, q)), z) ==> Contains(Span(p, q), z)
  {
    NormalizedCornersEdges(p, q);
  }

  /** When `q` is left of or above `p`, the normalized two-corner rectangle
      contains neither corner: the press and release columns (or rows) are
      both lost. */
  lemma NormalizedBackwardDragExcludesCorners(p: Point, q: Point)
    requires q.x < p.x || q.y < p.y
    ensures var n := Normalized(FromCorners(p, q));
            !Contains(n, p) && !Contains(n, q)
  {
    NormalizedCornersEdges(p, q);
  }

  /** The normalized two-corner rectangle has zero width exactly when `q` is
      one pixel left of `p`, and zero height exactly when one pixel above. */
  lemma NormalizedCornersEmptyIff(p: Point, q: Point)
    ensures var n := Normalized(FromCorners(p, q));
            (n.width == 0 <==> q.x == p.x - 1) && (n.height == 0 <==> q.y == p.y - 1)
  {
    NormalizedCornersEdges(p, q);
  }

  /** A release one pixel to the left of the press yields a zero-width
      rectangle that contains neither corner. */
  lemma NormalizedOneLeftIsEmpty(p: Point)
    ensures var q := Point(p.x - 1, p.y);
            var n := Normalized(FromCorners(p, q));
            n.width == 0 && !Contains(n, p) && !Contains(n, q)
  {
  }

  /** The normalized rectangle of two corners in `[0, w) x [0, h)` lies inside
      that box and has non-negative extents. */
  lemma NormalizedCornersWithinBox(p: Point, q: Point, w: int, h: int)
    requires 0 <= p.x < w && 0 <= p.y < h
    requires 0 <= q.x < w && 0 <= q.y < h
    ensures var r := Normalized(FromCorners(p, q));
            && 0 <= r.x && 0 <= r.width && r.x + r.width <= w
            && 0 <= r.y && 0 <= r.height && r.y + r.height <= h
  {
    NormalizedCornersEdges(p, q);
  }

  /** A span whose corners both lie in `[0, w) x [0, h)` lies inside that box. */
  lemma SpanWithinBox(p: Point, q: Point, w: int, h: int)
    requires 0 <= p.x < w && 0 <= p.y < h
    requires 0 <= q.x < w && 0 <= q.y < h
    ensures var r := Span(p, q);
            0 <= r.x && r.x + r.width <= w && 0 <= r.y && r.y + r.height <= h
  {
  }
}
