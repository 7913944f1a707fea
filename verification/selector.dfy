/**
 The rubber-band region selector `SnippingTool` as a pure state machine.

 The tool holds the original screenshot's size, the size of its scaled
 preview (unknown until the first resize), the display area the preview
 occupies, the press origin, the rubber band's geometry and visibility,
 whether the tool has closed, and the rectangles it has handed to the main
 window. Each event handler is a function from the old tool to the new one.
 */
module Selector {
  import opened Geometry
  import opened Mapping

  datatype Option<T> = None | Some(value: T)

  /** `Qt.MouseButton`, reduced to the one distinction the handlers make. */
  datatype Button = LeftButton | OtherButton

  /** The events the widget reacts to. `Resize` carries the top-left corner of
      the screenshot label and the size of the pixmap scaled to fit it;
      pointer events carry the pointer's global position. */
  datatype Event =
    | Resize(labelTopLeft: Point, scaledSize: Size)
    | Press(button: Button, pos: Point)
    | Move(pos: Point)
    | Release(button: Button, pos: Point)

  datatype Tool = Tool(
    pixmap: Size,           // the original, full-resolution screenshot
    scaled: Option<Size>,   // the preview; None until the first resize
    display: Rect,          // where the preview sits on screen
    origin: Point,          // press point, local to the display area
    band: Rect,             // geometry last given to the rubber band
    bandVisible: bool,
    closed: bool,
    emitted: seq<Rect>)     // rectangles passed to the main window, in order

  predicate NonNegative(s: Size) { s.width >= 0 && s.height >= 0 }

  /** Shape shared by every tool the handlers produce: the display area is the
      null rectangle until a preview exists and afterwards has exactly the
      preview's size, and the origin is never left of or above the area. */
  predicate WellFormed(t: Tool)
  {
    && NonNegative(t.pixmap)
    && t.origin.x >= 0 && t.origin.y >= 0
    && match t.scaled
       case None => t.display == NullRect
       case Some(s) => NonNegative(s) && SizeOf(t.display) == s
  }

  /** A freshly constructed tool. The rubber band's initial geometry is Qt's
      default for a new child widget and is taken as a parameter. */
  function Init(pixmap: Size, band: Rect): (t: Tool)
    requires NonNegative(pixmap)
    ensures WellFormed(t)
    ensures t.origin == Origin && !t.bandVisible && !t.closed && t.emitted == []
    ensures forall p :: !Contains(t.display, p)
  {
    Tool(pixmap, None, NullRect, Origin, band, false, false, [])
  }

  /** A global pointer position relative to the display area's top-left.
      The pointer is inside the display area exactly when its local position
      lies in `[0, width) x [0, height)`. */
  function Local(t: Tool, global: Point): (l: Point)
    ensures l.x + t.display.x == global.x && l.y + t.display.y == global.y
    ensures Contains(t.display, global) <==> 0 <= l.x < t.display.width && 0 <= l.y < t.display.height
  {
    ContainsIffOffsetInSize(t.display, global);

    Sub(global, TopLeft(t.display))
  }

  /** `resizeEvent`: the preview is rescaled to fit the label and the display
      area becomes the preview's rectangle at the label's top-left corner. */
  function OnResize(t: Tool, labelTopLeft: Point, scaledSize: Size): (u: Tool)
    requires WellFormed(t) && NonNegative(scaledSize)
    ensures WellFormed(u)
    ensures u.scaled == Some(scaledSize)
    ensures TopLeft(u.display) == labelTopLeft && SizeOf(u.display) == scaledSize
    ensures u == t.(scaled := u.scaled, display := u.display)
  {
    t.(scaled := Some(scaledSize), display := FromPointSize(labelTopLeft, scaledSize))
  }

  /** `mousePressEvent`: a left press inside the display area records the
      local press point as origin and shows an empty band there; any other
      press changes nothing. */
  function OnPress(t: Tool, button: Button, global: Point): (u: Tool)
    requires WellFormed(t)
    ensures WellFormed(u)
    ensures button != LeftButton || !Contains(t.display, global) ==> u == t
    ensures button == LeftButton && Contains(t.display, global) ==>
              && Sub(global, u.origin) == TopLeft(t.display)
              && 0 <= u.origin.x < t.display.width && 0 <= u.origin.y < t.display.height
              && u.band == FromPointSize(u.origin, InvalidSize)
              && u == t.(origin := u.origin, band := u.band, bandVisible := true)
  {
    if button == LeftButton && Contains(t.display, global) then
      var o := Local(t, global);
      t.(origin := o, band := FromPointSize(o, InvalidSize), bandVisible := true)
    else
      t
  }

  /** The display-local rectangle between the origin and the pointer,
      `QRect(origin, local).normalized()`. When the pointer is not left of or
      above the origin it runs from the origin to the pointer, both included;
      along an axis where the pointer is before the origin it runs from one
      past the pointer to one before the origin. */
  function Selection(t: Tool, global: Point): (r: Rect)
    ensures r.width >= 0 && r.height >= 0
    ensures CornerSpanEdges(r, t.origin, Local(t, global))
  {
    NormalizedCornersEdges(t.origin, Local(t, global));
    Normalized(FromCorners(t.origin, Local(t, global)))
  }

  /** `mouseMoveEvent`: a move inside the display area stretches the band
      between the origin and the pointer; a move outside is dropped, not
      clamped. No button or earlier press is required. */
  function OnMove(t: Tool, global: Point): (u: Tool)
    requires WellFormed(t)
    ensures WellFormed(u)
    ensures !Contains(t.display, global) ==> u == t
    ensures Contains(t.display, global) ==>
              && u == t.(band := u.band)
              && u.band.width >= 0 && u.band.height >= 0
              && CornerSpanEdges(u.band, t.origin, Local(t, global))
  {
    if Contains(t.display, global) then
      t.(band := Selection(t, global))
    else
      t
  }

  /** `mouseReleaseEvent`: a left release inside the display area hides the
      band, closes the tool and hands the main window exactly one rectangle,
      the selection rescaled to the original screenshot; any other release
      changes nothing. */
  function OnRelease(t: Tool, button: Button, global: Point): (u: Tool)
    requires WellFormed(t)
    ensures WellFormed(u)
    ensures button != LeftButton || !Contains(t.display, global) ==> u == t
    ensures button == LeftButton && Contains(t.display, global) ==>
              && t.scaled.Some? && t.scaled.value.width > 0 && t.scaled.value.height > 0
              && u.closed && !u.bandVisible
              && u.emitted == t.emitted + [MapToSource(Selection(t, global), t.scaled.value, t.pixmap)]
              && u == t.(bandVisible := false, closed := true, emitted := u.emitted)
  {
    if button == LeftButton && Contains(t.display, global) then
      var s := t.scaled.value;
      var mapped := MapToSource(Selection(t, global), s, t.pixmap);
      t.(bandVisible := false, closed := true, emitted := t.emitted + [mapped])
    else
      t
  }

  /** A pixmap is never scaled to a negative size. */
  predicate ValidEvent(e: Event)
  {
    e.Resize? ==> NonNegative(e.scaledSize)
  }

  /** Dispatches one event to its handler. */
  function Step(t: Tool, e: Event): (u: Tool)
    requires WellFormed(t) && ValidEvent(e)
    ensures WellFormed(u)
  {
    match e
    case Resize(tl, s) => OnResize(t, tl, s)
    case Press(b, p) => OnPress(t, b, p)
    case Move(p) => OnMove(t, p)
    case Release(b, p) => OnRelease(t, b, p)
  }

  /** A closed widget receives no further events. */
  function Deliver(t: Tool, e: Event): (u: Tool)
    requires WellFormed(t) && ValidEvent(e)
    ensures WellFormed(u)
    ensures t.closed ==> u == t
  {
    if t.closed then t else Step(t, e)
  }

  predicate ValidEvents(es: seq<Event>)
  {
    forall i :: 0 <= i < |es| ==> ValidEvent(es[i])
  }

  /** Delivers a sequence of events in order. */
  function Run(t: Tool, es: seq<Event>): Tool
    requires WellFormed(t) && ValidEvents(es)
    decreases |es|
  {
    if es == [] then t
    else
      var u := Deliver(t, es[0]);
      assert ValidEvents(es[1..]) by {
        forall i | 0 <= i < |es[1..]|
          ensures ValidEvent(es[1..][i])
        {
          assert es[1..][i] == es[i + 1];
        }
      }
      Run(u, es[1..])
  }

  /** What holds of the tool between events: at most one rectangle has been
      emitted, the tool is closed exactly when one has, and every emitted
      rectangle has a non-negative position and extent. */
  predicate Inv(t: Tool)
  {
    && WellFormed(t)
    && |t.emitted| <= 1
    && (t.closed <==> |t.emitted| == 1)
    && forall i :: 0 <= i < |t.emitted| ==>
         t.emitted[i].x >= 0 && t.emitted[i].y >= 0 && t.emitted[i].width >= 0 && t.emitted[i].height >= 0
  }

  /** Delivering one event keeps the invariant. */
  lemma DeliverKeepsInv(t: Tool, e: Event)
    requires Inv(t) && ValidEvent(e)
    ensures Inv(Deliver(t, e))
  {
    if !t.closed && e.Release? && e.button == LeftButton && Contains(t.display, e.pos) {
      // Non-negative selection times non-negative pixmap extents gives
      // non-negative products, hence non-negative truncated quotients.
      var sel := Selection(t, e.pos);
      MulMonotone(0, sel.x, t.pixmap.width);
      MulMonotone(0, sel.y, t.pixmap.height);
      MulMonotone(0, sel.width, t.pixmap.width);
      MulMonotone(0, sel.height, t.pixmap.height);
    }
  }

  /** Every run keeps the invariant. */
  lemma {:induction false} RunKeepsInv(t: Tool, es: seq<Event>)
    requires Inv(t) && ValidEvents(es)
    ensures Inv(Run(t, es))
    decreases |es|
  {
    if es != [] {
      DeliverKeepsInv(t, es[0]);
      var u := Deliver(t, es[0]);
      assert ValidEvents(es[1..]) by {
        forall i | 0 <= i < |es[1..]|
          ensures ValidEvent(es[1..][i])
        {
          assert es[1..][i] == es[i + 1];
        }
      }
      RunKeepsInv(u, es[1..]);
    }
  }

  /** Whatever events arrive, a tool emits at most one rectangle, is closed
      exactly when it has emitted one, and never emits a negative position
      or extent. */
  lemma AtMostOneSelection(pixmap: Size, band: Rect, es: seq<Event>)
    requires NonNegative(pixmap) && ValidEvents(es)
    ensures var t := Run(Init(pixmap, band), es);
            && |t.emitted| <= 1
            && (t.closed <==> |t.emitted| == 1)
            && forall i :: 0 <= i < |t.emitted| ==> t.emitted[i].width >= 0 && t.emitted[i].height >= 0
  {
    RunKeepsInv(Init(pixmap, band), es);
  }

  /** Before the first resize the display area is the null rectangle, so
      every press, move and release is ignored. */
  lemma {:induction false} PointerEventsBeforeResizeIgnored(pixmap: Size, band: Rect, es: seq<Event>)
    requires NonNegative(pixmap)
    requires forall i :: 0 <= i < |es| ==> !es[i].Resize?
    ensures Run(Init(pixmap, band), es) == Init(pixmap, band)
    decreases |es|
  {
    var t := Init(pixmap, band);
    if es != [] {
      assert !Contains(t.display, es[0].pos);
      assert Deliver(t, es[0]) == t;
      assert forall i :: 0 <= i < |es[1..]| ==> es[1..][i] == es[i + 1];
      PointerEventsBeforeResizeIgnored(pixmap, band, es[1..]);
    }
  }

  /** Moves need no earlier press: right after the first resize, a move inside
      the display area stretches the band from the default origin `(0, 0)`. */
  lemma MoveWithoutPressUsesDefaultOrigin(pixmap: Size, band: Rect, labelTopLeft: Point, scaledSize: Size, global: Point)
    requires NonNegative(pixmap) && NonNegative(scaledSize)
    requires Contains(FromPointSize(labelTopLeft, scaledSize), global)
    ensures var t := OnResize(Init(pixmap, band), labelTopLeft, scaledSize);
            OnMove(t, global).band == Span(Origin, Sub(global, labelTopLeft))
  {
    NormalizedCornersIsSpanIff(Origin, Sub(global, labelTopLeft));
  }

  /** When the origin came from a press inside the current display area and the
      release is inside it too, the display-local selection stays within the
      area and has non-negative extents. */
  lemma SelectionWithinDisplay(t: Tool, global: Point)
    requires WellFormed(t)
    requires 0 <= t.origin.x < t.display.width && 0 <= t.origin.y < t.display.height
    requires Contains(t.display, global)
    ensures var r := Selection(t, global);
            && 0 <= r.x && 0 <= r.width && r.x + r.width <= t.display.width
            && 0 <= r.y && 0 <= r.height && r.y + r.height <= t.display.height
  {
    NormalizedCornersWithinBox(t.origin, Local(t, global), t.display.width, t.display.height);
  }

  /** The selection is empty exactly when the release is one pixel left of or
      above the origin; every other release selects at least one pixel. */
  lemma SelectionEmptyIff(t: Tool, global: Point)
    ensures var r, l := Selection(t, global), Local(t, global);
            (r.width == 0 || r.height == 0) <==> (l.x == t.origin.x - 1 || l.y == t.origin.y - 1)
  {
    NormalizedCornersEmptyIff(t.origin, Local(t, global));
  }

  /** The selection equals the intended span of origin and release exactly
      when the release is neither left of nor above the origin, and it always
      lies inside that span. */
  lemma SelectionVersusSpan(t: Tool, global: Point, z: Point)
    ensures var l := Local(t, global);
            && (Selection(t, global) == Span(t.origin, l) <==> l.x >= t.origin.x && l.y >= t.origin.y)
            && (Contains(Selection(t, global), z) ==> Contains(Span(t.origin, l), z))
  {
    NormalizedCornersIsSpanIff(t.origin, Local(t, global));
    NormalizedCornersWithinSpan(t.origin, Local(t, global), z);
  }

  /** Under the same conditions the rectangle handed to the main window lies
      within the original screenshot, so no clamping is needed. */
  lemma ReleaseWithinSource(t: Tool, global: Point)
    requires WellFormed(t)
    requires 0 <= t.origin.x < t.display.width && 0 <= t.origin.y < t.display.height
    requires Contains(t.display, global)
    ensures var r := OnRelease(t, LeftButton, global).emitted[|t.emitted|];
            && 0 <= r.x && r.x + r.width <= t.pixmap.width
            && 0 <= r.y && r.y + r.height <= t.pixmap.height
  {
    SelectionWithinDisplay(t, global);
    MapInBounds(Selection(t, global), t.scaled.value, t.pixmap);
  }

  /** A left press followed by a left release at the same point inside the
      display area selects a single preview pixel, never an empty one. */
  lemma ClickSelectsOnePixel(t: Tool, global: Point)
    requires WellFormed(t)
    requires Contains(t.display, global)
    ensures var p := OnPress(t, LeftButton, global);
            var l := Local(t, global);
            && Selection(p, global) == Rect(l.x, l.y, 1, 1)
            && OnRelease(p, LeftButton, global).emitted
                 == t.emitted + [MapToSource(Rect(l.x, l.y, 1, 1), t.scaled.value, t.pixmap)]
  {
  }

  /** When the preview has the screenshot's own size, the emitted rectangle is
      the display-local selection itself. */
  lemma ReleaseAtUnitScale(t: Tool, global: Point)
    requires WellFormed(t)
    requires t.scaled == Some(t.pixmap)
    requires Contains(t.display, global)
    ensures OnRelease(t, LeftButton, global).emitted == t.emitted + [Selection(t, global)]
  {
    MapIdentity(Selection(t, global), t.pixmap);
  }

  /** A drag from local (100, 100) to (300, 200) includes both corner
      pixels, so it selects 201x101 preview pixels. */
  lemma DragScenarioSelection()
    ensures Normalized(FromCorners(Point(100, 100), Point(300, 200))) == Rect(100, 100, 201, 101)
  {
  }

  /** The same drag made backwards, from (300, 200) to (100, 100), loses both
      corner rows and columns: it selects 199x99 preview pixels at (101, 101). */
  lemma BackwardDragScenarioSelection()
    ensures Normalized(FromCorners(Point(300, 200), Point(100, 100))) == Rect(101, 101, 199, 99)
  {
  }

  /** On a 3000x2000 screenshot previewed at 600x400 that selection maps to
      the source rectangle (500, 500, 1005, 505). */
  lemma DragScenarioMapping()
    ensures MapToSource(Rect(100, 100, 201, 101), Size(600, 400), Size(3000, 2000)) == Rect(500, 500, 1005, 505)
  {
  }
}
