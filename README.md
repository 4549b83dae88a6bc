# PixelBooster tool algorithms and selection tool, in Dafny

Pixel::Booster is a small pixel-art editor written in C++ and Qt. This
project models two parts of its editing core and proves properties of them.

- The raster routines in `View/logic/tool_algorithm.cpp` that the drawing
  tools call:
  - a queue-driven 4-connected flood fill;
  - Bresenham's line;
  - Kennedy's two-loop Bresenham ellipse (outlined or filled), with its
    four-way mirroring `Plot4EllipsePoints` and the mirrored joining line
    `Bresenham4LinesEllipse`;
  - the two clipping `SetPixel` overloads.
- The rectangular selection tool in `View/logic/tool/selection_tool.cpp`:
  - the press / move / release state machine `Use`;
  - `GetRect`;
  - `ClearSelection`, which drops the lifted pixels back into the image.

## How the model is built

- **Images.** A `QImage` is an `array2<int>` of colours, indexed `img[x, y]`.
  `Length0` is the width and `Length1` the height. `Raster.Pixels` takes a
  value snapshot of an image.
- **Drawing contracts.** Every drawing routine is a method that writes into
  the array. Its contract is `Painted(img, pts, color)`: the image equals
  its entry snapshot with exactly the points `pts` that lie inside it set to
  `color`.
- **What each routine plots.** The list `pts` is returned as a ghost result
  and tied to a pure function:
  - `Bresenham.LinePoints` for a line;
  - `Bresenham.Mirrors` of the quadrant points for the ellipse routines.
  The lemmas about those functions state the geometry: endpoints, length,
  stepping rule and symmetry.
- **Flood fill.** `FloodFill` keeps the source's FIFO work list. It returns
  three ghost results:
  - the discovery order;
  - a parent index per pixel;
  - the number of main-loop passes.
  Its contract says the recoloured set is exactly the 4-connected component
  of the seed in the seed's colour.
- **Ellipse loop state.** The ellipse loops' counters (`x`, `y`, `x_change`,
  `y_change`, `ellipse_error`, `stopping_x`, `stopping_y`) are the datatype
  `Bresenham.ArcState`. One pass is `HorizontalStep` / `VerticalStep`.
- **Selection tool.** The editor's state, which it hands to `Use` through
  pointers, becomes the class `SelectionTool.SelectionState`:
  - the image;
  - the selection rectangle;
  - the lifted image (`None` for a null `QImage`);
  - the anchor;
  - the `started` flag.
- **Qt rectangles.** `QRect` is `Geometry.Rect(left, top, width, height)` with
  Qt's conventions: right edge `left + width - 1`, null rectangle
  `(0, 0, 0, 0)`, and `center` and `moveCenter` computed with C++'s
  truncating division (`Geometry.Half`).

## Model

| member | source | states |
|---|---|---|
| Geometry.Sign | View/logic/tool_algorithm.cpp:68 | `(d > 0) - (d < 0)`: the result has the sign of `d` (0 exactly at 0), and multiplying by it gives the absolute value and back |
| Geometry.Half | View/logic/tool_algorithm.cpp:109 | C++ `a / 2` truncates toward zero: it is within one half of `a / 2` and agrees with Dafny's division for non-negative `a` |
| Geometry.MoveCenter | View/logic/tool/selection_tool.cpp:51 | `QRect::moveCenter` keeps the rectangle valid and keeps its width and height |
| Geometry.MoveCenterCentres | View/logic/tool/selection_tool.cpp:51 | after `moveCenter(p)`, `center()` is `p` for any `p` with non-negative coordinates |
| Geometry.MoveCenterToOwnCentre | View/logic/tool/selection_tool.cpp:32 | moving a rectangle to its own centre leaves it where it is, when the centre involves no negative truncation |
| Geometry.MoveCenterToOwnCentreShifts | View/logic/tool/selection_tool.cpp:51 | with negative coordinates the truncating centre is off by one: a grab followed by a move to the same point can shift the selection by one pixel |
| Raster.AdjacentIsNeighbour | View/logic/tool_algorithm.cpp:36-40 | the four expansion offsets reach every 4-adjacent point |
| Raster.NeighbourIsAdjacent | View/logic/tool_algorithm.cpp:36-40 | each expansion offset leads to a 4-adjacent point |
| Raster.PathFromSeed | View/logic/tool_algorithm.cpp:46-53 | every pixel the fill discovers is joined to the seed by a 4-connected path through discovered pixels |
| Raster.ClosedRegionHoldsPaths | View/logic/tool_algorithm.cpp:48-54 | a discovered set that takes in every same-coloured neighbour holds every same-coloured path that starts in it |
| Raster.DistinctInsideBound | View/logic/tool_algorithm.cpp:44-56 | pairwise different pixels of a `w x h` image number at most `w * h` |
| Raster.BoxSize | View/logic/tool_algorithm.cpp:51 | the image rectangle holds exactly `width * height` pixels |
| ToolAlgorithm.SetPixel | View/logic/tool_algorithm.cpp:248-252 | a point inside the image takes the colour; a point outside changes nothing; no other pixel changes |
| ToolAlgorithm.SetPixelAt | View/logic/tool_algorithm.cpp:242-246 | the same for the `QPoint` overload |
| ToolAlgorithm.FloodFill | View/logic/tool_algorithm.cpp:28-57 | if the colours are equal nothing changes; otherwise the recoloured pixels are exactly the seed's 4-connected component in its original colour; each is recoloured once; no recoloured pixel keeps a neighbour of the old colour; the main loop makes at most `width * height` passes |
| ToolAlgorithm.FillIsComponent | View/logic/tool_algorithm.cpp:44-56 | a fill grown from the seed through same-coloured pixels, leaving no same-coloured neighbour unclaimed, has discovered exactly the seed's connected component |
| ToolAlgorithm.FilledIsClosed | View/logic/tool_algorithm.cpp:48-54 | when the work list is empty, no neighbour inside the image of a recoloured pixel still holds the old colour |
| ToolAlgorithm.Expand | View/logic/tool_algorithm.cpp:46-55 | one pass of the main loop: the recoloured set only grows, and the order found so far is kept; every neighbour of the dequeued pixel is then recoloured or of another colour; the work list stays the undequeued suffix of the order |
| ToolAlgorithm.Visit | View/logic/tool_algorithm.cpp:49-54 | a neighbour inside the image and of the old colour is enqueued and recoloured; any other neighbour changes nothing |
| ToolAlgorithm.BresenhamLine | View/logic/tool_algorithm.cpp:59-102 | exactly the points of `LinePoints(p1, p2)` inside the image are painted, and nothing else |
| ToolAlgorithm.LineAlongX | View/logic/tool_algorithm.cpp:77-88 | the x-major loop paints the walk of the error term along x |
| ToolAlgorithm.LineAlongY | View/logic/tool_algorithm.cpp:89-100 | the y-major loop paints the walk of the error term along y |
| Bresenham.LineEndpoints | View/logic/tool_algorithm.cpp:59-102 | a line starts at `p1`, ends at `p2`, and has `max(abs dx, abs dy) + 1` points |
| Bresenham.LineSteps | View/logic/tool_algorithm.cpp:77-100 | each next point moves the longer axis one unit towards `p2` and the shorter axis by at most one unit, never away from `p2` |
| Bresenham.WalkLength | View/logic/tool_algorithm.cpp:79-88 | the loop plots one point per unit of the major axis |
| Bresenham.WalkReaches | View/logic/tool_algorithm.cpp:78-88 | the error term keeps the minor coordinate on course, so the loop's last point is the endpoint |
| Bresenham.MajorWalkEnds | View/logic/tool_algorithm.cpp:77-101 | either branch's loop has one point per unit of its major axis and ends at `p2` |
| Bresenham.WalkSteps | View/logic/tool_algorithm.cpp:79-88 | each pass moves the major coordinate by `ix` (or `iy`) and the minor one by zero or one step |
| Bresenham.ErrorStep | View/logic/tool_algorithm.cpp:80-84 | one error update keeps the error within `[2b - 2a, 2b]` and in step with the distance left |
| ToolAlgorithm.Plot4EllipsePoints | View/logic/tool_algorithm.cpp:233-240 | exactly the four points `c + p`, `c - p + e` and the two mixed corners inside the image are painted |
| Bresenham.MirrorsSymmetric | View/logic/tool_algorithm.cpp:233-240 | whatever points are plotted, the figure is symmetric about both axes through `c + e / 2` |
| Bresenham.InMirrors | View/logic/tool_algorithm.cpp:233-240 | a point is plotted exactly when it is one of the four mirror images of some quadrant point |
| Bresenham.MirrorsAppend | View/logic/tool_algorithm.cpp:233-240 | mirroring two point lists one after the other plots their concatenation |
| Bresenham.Plot4InsideRect | View/logic/tool_algorithm.cpp:106-110 | with `c = rect.center()` and `e` the parity offset, the mirror images of a quadrant point lie inside `rect`, and the axes of symmetry are the rectangle's own |
| Bresenham.AxisInside | View/logic/tool_algorithm.cpp:106-110 | one axis of Plot4InsideRect: the truncated midpoint plus the parity offset spans the side |
| ToolAlgorithm.Bresenham4LinesEllipse | View/logic/tool_algorithm.cpp:188-231 | paints the four mirror images of every point of the line from `p1` to `p2`, and nothing else |
| ToolAlgorithm.Mirror4AlongX | View/logic/tool_algorithm.cpp:206-217 | the x-major loop paints the mirrored walk along x |
| ToolAlgorithm.Mirror4AlongY | View/logic/tool_algorithm.cpp:218-229 | the y-major loop paints the mirrored walk along y |
| ToolAlgorithm.BresenhamEllipse | View/logic/tool_algorithm.cpp:104-186 | an invalid rectangle paints nothing; otherwise the quadrant points are the first loop's arc, the second loop's arc, and the joining line exactly when the arc ends are apart; they are mirrored four ways about the rectangle's centre, with spans instead of points when filling; for a 1 x 1 rectangle the arcs are the corrected single pass of the Findings row, since the source's first loop never ends there |
| ToolAlgorithm.EllipseFrom | View/logic/tool_algorithm.cpp:117-185 | the two arcs, then the joining line drawn exactly when the last points of the two loops are more than one pixel apart; a 1 x 1 rectangle makes a single pass |
| ToolAlgorithm.HorizontalArc | View/logic/tool_algorithm.cpp:117-150 | the first loop plots exactly the states reached while `stopping_x >= stopping_y`, and stops |
| ToolAlgorithm.HorizontalLoop | View/logic/tool_algorithm.cpp:131-150 | the loop ends with the guard false; every point it plotted was plotted while the guard held |
| ToolAlgorithm.HorizontalPass | View/logic/tool_algorithm.cpp:132-149 | one pass plots the current arc point (or its row span) and reaches the state after one more pass; when `2 rx^2` is positive it lowers `stopping_x - stopping_y` by at least that much |
| ToolAlgorithm.HorizontalUpdate | View/logic/tool_algorithm.cpp:140-149 | the counter updates of one pass of the first loop |
| ToolAlgorithm.PlotHorizontalArcPoint | View/logic/tool_algorithm.cpp:133-139 | an outline mirrors the arc point; a fill mirrors the points `(i, y)` for `0 <= i < x` |
| ToolAlgorithm.VerticalArc | View/logic/tool_algorithm.cpp:152-180 | the second loop plots exactly the states reached while `stopping_x <= stopping_y`, and stops |
| ToolAlgorithm.VerticalLoop | View/logic/tool_algorithm.cpp:161-180 | the loop ends with the guard false; every point it plotted was plotted while the guard held |
| ToolAlgorithm.VerticalPass | View/logic/tool_algorithm.cpp:162-179 | one pass plots the current arc point (or its column span) and reaches the state after one more pass; when `2 ry^2` is positive it lowers `stopping_y - stopping_x` by at least that much |
| ToolAlgorithm.VerticalUpdate | View/logic/tool_algorithm.cpp:170-179 | the counter updates of one pass of the second loop |
| ToolAlgorithm.PlotVerticalArcPoint | View/logic/tool_algorithm.cpp:163-169 | an outline mirrors the arc point; a fill mirrors the points `(x, i)` for `0 <= i < y` |
| Bresenham.HorizontalProgress | View/logic/tool_algorithm.cpp:140-149 | each pass of the first loop lowers `stopping_x - stopping_y` by at least `2 rx^2`, so the loop ends when `rx > 0` |
| Bresenham.VerticalProgress | View/logic/tool_algorithm.cpp:170-179 | each pass of the second loop lowers `stopping_y - stopping_x` by at least `2 ry^2` |
| Bresenham.HorizontalPassStep | View/logic/tool_algorithm.cpp:131-150 | a pass made while `stopping_x >= stopping_y` holds reaches the state after one more pass and adds the current point to the arc; when `2 rx^2` is positive the guard's margin shrinks by at least that much |
| Bresenham.VerticalPassStep | View/logic/tool_algorithm.cpp:161-180 | a pass made while `stopping_x <= stopping_y` holds reaches the state after one more pass and adds the current point to the arc; when `2 ry^2` is positive the guard's margin shrinks by at least that much |
| Bresenham.NarrowArcStops | View/logic/tool_algorithm.cpp:131-150 | for a rectangle one pixel wide (`rx = 0`, `ry > 0`) the first loop stops after one pass |
| Bresenham.FlatArcStops | View/logic/tool_algorithm.cpp:161-180 | for a rectangle one pixel high and at least two wide (`ry = 0`, `rx > 0`) the second loop stops after one pass |
| Bresenham.HorizontalRunSteps | View/logic/tool_algorithm.cpp:131-150 | the first arc starts at `(rx, 0)` and climbs one row per point, moving left at most one column: it is 8-connected |
| Bresenham.VerticalRunSteps | View/logic/tool_algorithm.cpp:161-180 | the second arc starts at `(0, ry)` and moves one column right per point, down at most one row |
| Bresenham.OutlineSpans | View/logic/tool_algorithm.cpp:137-139 | an outline hands the arc points themselves to `Plot4EllipsePoints` |
| Bresenham.UnitEllipseNeverStops | View/logic/tool_algorithm.cpp:131-150 | as written, for a 1 x 1 rectangle the first loop's guard still holds after any number of passes |
| Bresenham.UnitEllipseHasNoRun | View/logic/tool_algorithm.cpp:131-150 | as written, the first loop has no finite run for a 1 x 1 rectangle |
| Bresenham.UnitEllipseIsItsPixel | View/logic/tool_algorithm.cpp:104-186 | with the single pass, a 1 x 1 outline paints the rectangle's one pixel and nothing else |
| SelectionTool.GetRect | View/logic/tool/selection_tool.cpp:65-71 | the rectangle is valid and contains both corners; its edges are the minima and maxima of their coordinates |
| SelectionTool.GetRectSymmetric | View/logic/tool/selection_tool.cpp:65-71 | the corners may be given in either order |
| SelectionTool.GetRectSmallest | View/logic/tool/selection_tool.cpp:65-71 | any rectangle containing both corners contains the whole of `GetRect` |
| SelectionTool.GetRectOfPoint | View/logic/tool/selection_tool.cpp:38 | a new selection starts as the single pixel under the pointer |
| SelectionTool.FillRect | View/logic/tool/selection_tool.cpp:59 | defines the modelled `fillRect` (an opaque overwrite of the pixels inside the rectangle); its contract states only that the image keeps its size, and what it paints is used through `Use` and `LiftAndDropRestores` |
| SelectionTool.DrawImage | View/logic/tool/selection_tool.cpp:76 | defines the modelled same-size `drawImage`; its contract states only that the image keeps its size, and what it draws is used through `ClearSelection` and `LiftAndDropRestores` |
| SelectionTool.LiftAndDropRestores | View/logic/tool/selection_tool.cpp:54-62 | lifting a selection (copy, then fill) and dropping it back where it was (as `ClearSelection` does) restores the image, whatever the fill colour |
| SelectionTool.RestoredAt | View/logic/tool/selection_tool.cpp:54-62 | the same for a single pixel |
| SelectionTool.DropStaysInside | View/logic/tool/selection_tool.cpp:73-77 | dropping the lifted pixels changes nothing outside the selection |
| SelectionTool.SelectionState.ClearSelection | View/logic/tool/selection_tool.cpp:73-80 | the lifted image, if any, is drawn into the selection rectangle; then both are reset to null; anchor, flag and undo history are kept, and so is the state invariant |
| SelectionTool.SelectionState.Use | View/logic/tool/selection_tool.cpp:27-63 | a left press inside a valid selection sets the anchor to the pointer minus the centre; any other left press clears the selection and starts a 1 x 1 one at the pointer; a press without the left button clears the selection; a move while started stretches the selection from the anchor; a move that has not started it, with the left button and a valid selection, drags the centre to the pointer minus the anchor; a release ends the drawing; if a selection was being drawn, the release snapshots the image for undo, lifts a copy of the selection and fills it with the colour, leaving pixels outside it unchanged, and otherwise changes neither the image, the lifted image nor the undo history; the state invariant is kept |

## Left out

- Colours are plain integers. `QColor`/`QRgb` conversion and the image's pixel
  format are not modelled.
- `QPainter::fillRect` and `QPainter::drawImage` are modelled as opaque
  overwrites. Alpha blending with a translucent colour or image is not
  modelled.
- SelectionTool.DrawImage: models `drawImage` only for a source whose size
  matches the target rectangle, which is the only way `ClearSelection` uses
  it. Qt's scaling of a source of another size is not modelled; pixels the
  source does not cover keep their colour.
- ToolAlgorithm.BresenhamEllipse: for a 1 x 1 rectangle it follows the
  corrected single pass of ToolAlgorithm.EllipseFrom, not the source's first
  loop, which never ends there (see "## Findings").
- ToolAlgorithm.FloodFill: requires the seed to lie inside the image,
  because `QImage::pixel` is undefined for positions outside it.
- ToolAlgorithm.BresenhamEllipse: does not model 32-bit overflow of the
  products `r_y * r_y * (1 - 2 * r_x)`, `2 * r_x * r_x` and
  `two_b_square * r_x`. Integers are unbounded throughout the model, so
  overflow on very large rectangles or coordinates is left out everywhere.
- The undo stack (`UndoRedo::Do`) is a foreign call. The model records the
  snapshot it receives in the ghost field `SelectionState.undo`; undo and
  redo themselves are not part of this model.
- `ToolEvent` carries only the action, the left-button flag and the image
  position. Other actions, and the event's other fields, are not modelled.
- `SelectionState.lifted` is `None` for a null `QImage`. A copy of a null
  rectangle is modelled as the whole image (`Some`). This happens after a
  right press while a selection is being drawn.
- Qt's truncating centre is off by one for rectangles left of or above the
  origin. The lemmas that place a rectangle at its own centre
  (Geometry.MoveCenterToOwnCentre, Bresenham.Plot4InsideRect) therefore
  require non-negative coordinate sums. Geometry.MoveCenterToOwnCentreShifts
  shows the shift.
- The loop bodies of the ellipse and flood-fill loops are split into helper
  methods (the Pass, Update and Visit methods). Each helper does what one
  pass of the source loop does. The split does not change the order of the
  writes.

## Findings

| source | as written | input that shows it | evidently intended | confidence | as-written member | corrected member |
|---|---|---|---|---|---|---|
| View/logic/tool_algorithm.cpp:131-150 | for a 1 x 1 rectangle `r_x = r_y = 0`, so `two_a_square`, `two_b_square`, `stopping_x` and `stopping_y` stay 0 and the guard `stopping_x >= stopping_y` never fails: the first loop never ends | `BresenhamEllipse(image, QRect(0, 0, 1, 1), false, color)` | draw the rectangle's single pixel and stop | not executed | Bresenham.UnitEllipseNeverStops | ToolAlgorithm.EllipseFrom |
