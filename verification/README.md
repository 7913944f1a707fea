# Rivera rubber-band selector, modelled in Dafny

Rivera is a desktop OCR utility. It grabs the screen, shows a scaled preview of
the screenshot next to a text pane, lets the user drag a rectangle over the
preview, maps that rectangle back to the original screenshot's pixels, and
crops that region for Tesseract. This project models the one piece with real
logic, the `SnippingTool` widget:

- `geometry.dfy` (module `Geometry`) holds integer points, sizes and
  rectangles with Qt's conventions. A rectangle built from two corners includes
  both of them. `contains` is inclusive of `left + width - 1`. `normalized()`
  follows Qt 6: a negative extent has its two edges exchanged, each moved one
  pixel inward, so the extent is negated.
- `mapping.dfy` (module `Mapping`) rescales a preview-space rectangle to the
  original screenshot. `x` and `width` are multiplied by
  `pixmap.width / scaled.width`, `y` and `height` by
  `pixmap.height / scaled.height`. Each is rounded toward zero.
- `selector.dfy` (module `Selector`) holds the tool's state and one pure
  function per event handler (resize, press, move, release). It adds delivery
  of event sequences to a tool that stops receiving events once closed, and the
  invariants those runs keep.

Some consequences of the code that the model makes explicit:

- A move outside the display area is dropped. It is not clamped to the
  boundary.
- A press and release at the same point selects one pixel (1x1).
- Corners are inclusive. A drag from (100,100) to (300,200) on a 600x400
  preview of a 3000x2000 screenshot gives the source rectangle
  (500, 500, 1005, 505).
- The mapped rectangle is not clamped to the screenshot. The model proves
  instead that a selection whose corners both come from inside the display
  area never leaves the screenshot.
- A drag up or to the left selects less than the same drag made down and to
  the right (see "Findings").

## Model

| member | source | states |
|---|---|---|
| Geometry.Sub | Rivera.py:55 | the display-local point plus the display area's top-left gives back the global point |
| Geometry.FromPointSize | Rivera.py:40 | the display area has the label's top-left corner and exactly the scaled pixmap's size |
| Geometry.Contains | Rivera.py:57 | `display_area.contains(global_point)`, asked by all three pointer handlers (also lines 69 and 79), holds only for a rectangle at least one pixel wide and high |
| Geometry.ContainsIffOffsetInSize | Rivera.py:57 | a point lies in a rectangle exactly when its offset from the top-left corner is inside `[0, width) x [0, height)` |
| Geometry.FromCorners | Rivera.py:70 | the two-corner rectangle starts at the press origin and its inclusive right and bottom edges are the current point |
| Geometry.Normalized | Rivera.py:70-80 | as Qt 6's `normalized()`: extents become non-negative; along an axis with negative extent the new left edge is one past the old right edge and the new right edge one before the old left edge; a zero or positive extent is kept |
| Geometry.NormalizedIdempotent | Rivera.py:70-80 | normalizing an already normalized rectangle changes nothing |
| Geometry.NormalizedCornersEdges | Rivera.py:70-80 | `QRect(origin, local).normalized()` runs from origin to pointer along an axis where the pointer is not before the origin, and from one past the pointer to one before the origin where it is |
| Geometry.Span | Rivera.py:80 | the intended selection (the corrected rectangle of the finding below) spanned by origin and pointer has width and height at least 1, its top-left is the componentwise minimum, its bottom-right the maximum, and it contains both points |
| Geometry.SpanContainsIff | Rivera.py:80 | a point lies in the intended selection if and only if it lies between the two corners on both axes |
| Geometry.SpanSymmetric | Rivera.py:80 | swapping origin and pointer gives the same intended rectangle, so drag direction does not matter |
| Geometry.SpanOfOrderedCorners | Rivera.py:70-80 | when the pointer is not left of or above the origin, the intended selection is exactly Qt's two-corner rectangle |
| Geometry.SpanOfOnePoint | Rivera.py:80 | the same point as origin and release gives a 1x1 intended rectangle, never an empty one |
| Geometry.NormalizedCornersIsSpanIff | Rivera.py:70-80 | the normalized two-corner rectangle equals the min/max span if and only if the pointer is neither left of nor above the origin |
| Geometry.NormalizedCornersWithinSpan | Rivera.py:70-80 | every point of the normalized two-corner rectangle lies in the min/max span |
| Geometry.NormalizedBackwardDragExcludesCorners | Rivera.py:80 | when the release is left of or above the press, the normalized rectangle contains neither the press point nor the release point |
| Geometry.NormalizedCornersEmptyIff | Rivera.py:80 | the normalized rectangle has zero width exactly when the release is one pixel left of the press, zero height exactly when one pixel above |
| Geometry.NormalizedOneLeftIsEmpty | Rivera.py:80 | a release one pixel left of the press normalizes to a zero-width rectangle containing neither point |
| Geometry.NormalizedCornersWithinBox | Rivera.py:79-80 | two corners inside `[0,w) x [0,h)` give a normalized rectangle with non-negative extents inside that box |
| Geometry.SpanWithinBox | Rivera.py:79-80 | two corners inside `[0,w) x [0,h)` span an intended rectangle with `0 <= x`, `x + width <= w`, and the same for y and height |
| Mapping.TruncDiv | Rivera.py:86-89 | the quotient is the exact rational quotient rounded toward zero |
| Mapping.TruncQuotientUnique | Rivera.py:86-89 | at most one integer is the rounded-toward-zero quotient, so the mapping is determined |
| Mapping.TruncDivMonotone | Rivera.py:86-89 | rounding the quotient toward zero preserves order of dividends |
| Mapping.MapToSource | Rivera.py:85-90 | each coordinate of the emitted rectangle is the preview coordinate times original extent over preview extent, rounded toward zero |
| Mapping.ScaleCoordIdentity | Rivera.py:86 | scaling by a ratio of one returns the coordinate unchanged |
| Mapping.MapIdentity | Rivera.py:85-90 | when the preview has the original's size the mapping is the identity |
| Mapping.ScaleCoordMonotone | Rivera.py:86 | a larger preview coordinate never maps to a smaller source coordinate |
| Mapping.MapMonotone | Rivera.py:85-90 | the mapping is monotone in x, y, width and height |
| Mapping.ScaleIntervalInBounds | Rivera.py:86-88 | a span `[x, x+width)` inside the preview width maps to a span inside the original width |
| Mapping.MapInBounds | Rivera.py:85-90 | an in-preview selection maps inside `[0, pixmap.width] x [0, pixmap.height]` with non-negative extents |
| Mapping.ScaleExtentPositiveIff | Rivera.py:88 | a mapped extent is at least one pixel if and only if selection extent times original extent reaches the preview extent |
| Mapping.MapNonEmptyIff | Rivera.py:88-89 | the mapped selection is non-empty if and only if both rescaled extents reach one source pixel |
| Selector.Init | Rivera.py:28-32 | a new tool has origin (0,0), a hidden band, is open, has emitted nothing, and its display area contains no point |
| Selector.Local | Rivera.py:55 | in each pointer handler (also lines 67 and 77) the local point plus the display area's top-left is the global point, and the pointer is in the display area exactly when the local point is in `[0, width) x [0, height)` |
| Selector.Selection | Rivera.py:70-80 | `QRect(origin, local).normalized()` has non-negative extents and the edges of a forward or backward drag given above |
| Selector.OnResize | Rivera.py:36-40 | after a resize the display area sits at the label's top-left with exactly the scaled pixmap's size; nothing else changes |
| Selector.OnPress | Rivera.py:50-60 | a non-left press or one outside the display area changes nothing; a left press inside sets origin to pointer minus the area's top-left, within `[0,width-1] x [0,height-1]`, and shows an empty band there |
| Selector.OnMove | Rivera.py:62-70 | a move outside the display area changes nothing (dropped, not clamped); a move inside sets only the band, to a rectangle with non-negative extents running from origin to pointer on each axis where the pointer is not before the origin, and strictly between them where it is |
| Selector.OnRelease | Rivera.py:72-91 | a non-left or outside release changes nothing; a left release inside has a positive preview size (no division by zero), hides the band, closes the tool and appends exactly one rectangle, the mapped `Selection` |
| Selector.Step | Rivera.py:34-91 | every handler keeps the tool well formed: the display area is empty before the first resize and afterwards has exactly the preview's size, and the origin is non-negative |
| Selector.Deliver | Rivera.py:82 | a closed tool is left unchanged by any further event |
| Selector.DeliverKeepsInv | Rivera.py:72-91 | one event keeps the invariant: at most one rectangle emitted, closed exactly when one has been, all emitted positions and extents non-negative |
| Selector.RunKeepsInv | Rivera.py:50-91 | every sequence of events keeps that invariant |
| Selector.AtMostOneSelection | Rivera.py:79-91 | from a fresh tool, any events emit at most one rectangle, the tool is closed exactly when one was emitted, and its extents are non-negative |
| Selector.PointerEventsBeforeResizeIgnored | Rivera.py:32-79 | before the first resize the display area is the null rectangle, so any presses, moves and releases leave the fresh tool unchanged |
| Selector.MoveWithoutPressUsesDefaultOrigin | Rivera.py:62-70 | right after the first resize, a move inside the area stretches the band from the default origin (0,0) to the pointer without any press |
| Selector.SelectionWithinDisplay | Rivera.py:79-80 | with an in-area origin and release, the display-local selection lies within the display area and has non-negative extents |
| Selector.SelectionEmptyIff | Rivera.py:80 | the selection is empty exactly when the release is one pixel left of or above the origin |
| Selector.SelectionVersusSpan | Rivera.py:70-80 | the selection equals the min/max span of origin and release exactly when the release is neither left of nor above the origin, and always lies inside that span |
| Selector.ReleaseWithinSource | Rivera.py:79-90 | with an in-area origin and release, the emitted rectangle lies within the original screenshot |
| Selector.ClickSelectsOnePixel | Rivera.py:57-80 | a left press and a left release at the same in-area point select one preview pixel and emit its mapping |
| Selector.ReleaseAtUnitScale | Rivera.py:85-90 | when the preview has the screenshot's own size, the emitted rectangle is the display-local selection |
| Selector.DragScenarioSelection | Rivera.py:80 | a drag from (100,100) to (300,200) selects the 201x101 rectangle at (100,100) |
| Selector.DragScenarioMapping | Rivera.py:85-90 | that selection on a 600x400 preview of a 3000x2000 screenshot maps to (500, 500, 1005, 505) |
| Selector.BackwardDragScenarioSelection | Rivera.py:80 | a drag from (300,200) to (100,100) selects the 199x99 rectangle at (101,101) |

## Findings

| source | as written | input that shows it | evidently intended | confidence | as-written member | corrected member |
|---|---|---|---|---|---|---|
| Rivera.py:70-80 | The selection is `QRect(origin, local).normalized()`. In Qt 6, `normalized()` turns a negative extent into the pixels strictly between the two stored edges. So a drag up or to the left loses the press and release rows or columns, and a release exactly one pixel left of (or above) the press gives an extent of 0. | press at local (300,200), release at (100,100): the selection is (101, 101, 199, 99) and contains neither point; press at (10,10), release at (9,10): width 0, so the emitted rectangle is empty, and `QPixmap::copy` (Rivera.py:162), given an empty rectangle, copies the whole screenshot | the rectangle with both points as corners, the same as for the drag made down and to the right: (100, 100, 201, 101) and (9, 10, 2, 1) | medium, not executed; depends on Qt 6's `normalized()` arithmetic | Geometry.NormalizedBackwardDragExcludesCorners | Geometry.Span |

The handlers are modelled as written and use `Selector.Selection`.
`Geometry.Span` is the corrected rectangle: componentwise minimum to maximum,
both points included. `Geometry.NormalizedCornersIsSpanIff` shows that the two
agree exactly when the release is neither left of nor above the press.
`Geometry.NormalizedCornersWithinSpan` shows that the selection as written
always lies inside the corrected one. `Geometry.NormalizedOneLeftIsEmpty` is
the worked example of the one-pixel case.

## Left out

- Widget plumbing is left out: window flags, translucency, cursor, painting,
  and moving and resizing the widget (Rivera.py:23-25, 41-48). All of
  `RiveraApp`'s layout, buttons and styling is left out too (Rivera.py:94-145).
  These are GUI environment.
- Screen capture with `grabWindow` (Rivera.py:149-150) is a foreign call. The
  original screenshot's size is an input to `Selector.Init`.
- Resampling with `pixmap.scaled(..., KeepAspectRatio)` (Rivera.py:36-38) is a
  foreign call. The scaled size is an input of the `Resize` event. The model
  only assumes it is non-negative. It does not claim the aspect ratio is kept or
  that the preview fits the label.
- Cropping with `pixmap.copy`, saving to disk and Tesseract OCR are left out
  (Rivera.py:160-180). They are I/O and an external engine. So is the message
  choice in `display_extracted_text` (Rivera.py:182-186).
- Starting a new capture builds a fresh tool (Rivera.py:147-158). In the model
  that is just `Selector.Init`.
- Mapping.MapToSource: computes the exact rational quotient, rounded toward
  zero. The code uses Python's floating-point true division and converts the
  double to an int. For screen-sized operands both give the same integer, but
  IEEE rounding is not modelled.
- Geometry.Normalized: follows Qt 6, the version the PySide6 binding wraps.
  Qt 5's `normalized()` exchanged the edges without moving them inward; that
  variant is not modelled.
- Geometry.Contains: answers false for a rectangle with a negative extent.
  Qt checks the normalized rectangle instead. The tool only asks this of the
  display area, whose extents are never negative.
- The model treats pointer positions and the display area as one coordinate
  space. The code builds the display area from the label's parent-relative
  geometry (Rivera.py:39-40) and compares it with the pointer's global position
  (Rivera.py:52). The model makes no claim that these agree on screen.
- Selector.OnPress: records the geometry requested for the band,
  `QRect(origin, QSize())`, whose extents are -1. The clamping of negative
  widget sizes to zero inside `QWidget::setGeometry` is not modelled.
- Selector.Init: the rubber band's initial geometry is Qt's default for a new
  child widget. It is a parameter here, not a fixed value.
- Selector.ReleaseWithinSource: assumes the origin lies inside the current
  display area. A resize between press and release can shrink the preview
  below the origin. That case is not bounded.
- Selector.Deliver: a closed (hidden) widget receives no events. This is the
  environment's behaviour, not code in the handlers. Whether moves are
  delivered without a held button (mouse tracking) is also the environment's
  choice. The model accepts any move.
- Mouse buttons are reduced to left versus any other button. That is the only
  distinction the handlers make.
- Qt stores rectangle coordinates as 32-bit ints. Screen coordinates are far
  from that range, so overflow is not modelled.
