/** SelectionTool: the rectangular selection. A left press starts a new
    selection or grabs the current one, moves stretch or drag it, and the
    release that ends a new selection lifts its pixels off the image,
    leaving the selection area painted in the current colour. The lifted
    pixels are dropped back wherever the selection then lies when the
    selection is cleared. */
module SelectionTool {
  import opened Geometry
  import opened Raster

  datatype Option<T> = None | Some(value: T)

  /** The mouse actions a tool reacts to. */
  datatype Action = Press | Move | Release

  /** A ToolEvent: the action, whether the left button is down, and the
      pointer position in image coordinates. */
  datatype ToolEvent = ToolEvent(action: Action, lmbDown: bool, imgPos: Point)

  /** GetRect: the rectangle spanned by two corner points, in either order. */
  function GetRect(start: Point, end: Point): (r: Rect)
    ensures r.IsValid() && r.Contains(start) && r.Contains(end)
    ensures r.left == Min(start.x, end.x) && r.Right() == Max(start.x, end.x)
    ensures r.top == Min(start.y, end.y) && r.Bottom() == Max(start.y, end.y)
  {
    Rect(Min(start.x, end.x), Min(start.y, end.y), Abs(start.x - end.x) + 1, Abs(start.y - end.y) + 1)
  }

  /** The corners may be given in either order. */
  lemma GetRectSymmetric(start: Point, end: Point)
    ensures GetRect(start, end) == GetRect(end, start)
  {
  }

  /** GetRect is the smallest rectangle holding both corners: any rectangle
      that contains them contains every point of it. */
  lemma GetRectSmallest(start: Point, end: Point, q: Rect, p: Point)
    requires q.Contains(start) && q.Contains(end) && GetRect(start, end).Contains(p)
    ensures q.Contains(p)
  {
  }

  /** A press and a move to the same point select that one pixel. */
  lemma GetRectOfPoint(p: Point)
    ensures GetRect(p, p) == Rect(p.x, p.y, 1, 1)
  {
  }

  /** QPainter::fillRect with an opaque colour: the pixels of `g` inside `r`
      take `color`; nothing outside the image is touched. */
  function FillRect(g: seq<seq<int>>, r: Rect, color: int): (f: seq<seq<int>>)
    ensures |f| == |g| && forall x :: 0 <= x < |g| ==> |f[x]| == |g[x]|
  {
    seq(|g|, x requires 0 <= x < |g| =>
      seq(|g[x]|, y requires 0 <= y < |g[x]| => if r.Contains(Point(x, y)) then color else g[x][y]))
  }

  /** QImage::copy(r) of a `w x h` image: the whole image for a null
      rectangle, a null image for any other rectangle that is not valid, and
      otherwise an `r.width x r.height` image whose pixels outside the source
      image are 0. */
  function Copy(g: seq<seq<int>>, w: nat, h: nat, r: Rect): Option<seq<seq<int>>>
    requires IsGrid(g, w, h)
  {
    if r.IsNull() then Some(g)
    else if !r.IsValid() then None
    else Some(seq(r.width, i requires 0 <= i < r.width =>
                seq(r.height, j requires 0 <= j < r.height =>
                  if Inside(w, h, Point(r.left + i, r.top + j)) then g[r.left + i][r.top + j] else 0)))
  }

  /** QPainter::drawImage(r, src) of an opaque image whose size is that of
      `r`: each pixel of `g` inside `r` takes the pixel of `src` at the same
      offset from the rectangle's corner. */
  function DrawImage(g: seq<seq<int>>, r: Rect, src: seq<seq<int>>): (d: seq<seq<int>>)
    ensures |d| == |g| && forall x :: 0 <= x < |g| ==> |d[x]| == |g[x]|
  {
    seq(|g|, x requires 0 <= x < |g| => seq(|g[x]|, y requires 0 <= y < |g[x]| => DrawnAt(g, r, src, x, y)))
  }

  /** The pixel at `(x, y)` after DrawImage. */
  function DrawnAt(g: seq<seq<int>>, r: Rect, src: seq<seq<int>>, x: int, y: int): int
    requires 0 <= x < |g| && 0 <= y < |g[x]|
  {
    if r.Contains(Point(x, y)) && x - r.left < |src| && y - r.top < |src[x - r.left]|
    then src[x - r.left][y - r.top] else g[x][y]
  }

  /** The image after ClearSelection drops the lifted pixels, if any, back
      into the selection rectangle. */
  function Dropped(g: seq<seq<int>>, selection: Rect, lifted: Option<seq<seq<int>>>): seq<seq<int>>
  {
    if lifted.Some? then DrawImage(g, selection, lifted.value) else g
  }

  /** Lifting a selection and dropping it back where it was restores the
      image, whatever colour the hole was painted: a release that ends a new
      selection followed by a press that clears it leaves the picture as it
      was before the release. */
  lemma LiftAndDropRestores(g: seq<seq<int>>, w: nat, h: nat, r: Rect, color: int)
    requires IsGrid(g, w, h) && r.IsValid()
    ensures DrawImage(FillRect(g, r, color), r, Copy(g, w, h, r).value) == g
  {
    var d := DrawImage(FillRect(g, r, color), r, Copy(g, w, h, r).value);
    forall x, y | 0 <= x < w && 0 <= y < h ensures d[x][y] == g[x][y] {
      RestoredAt(g, w, h, r, color, x, y);
    }
    GridsEqual(d, g, w, h);
  }

  lemma RestoredAt(g: seq<seq<int>>, w: nat, h: nat, r: Rect, color: int, x: int, y: int)
    requires IsGrid(g, w, h) && r.IsValid() && 0 <= x < w && 0 <= y < h
    ensures DrawImage(FillRect(g, r, color), r, Copy(g, w, h, r).value)[x][y] == g[x][y]
  {
    var c := Copy(g, w, h, r).value;
    var f := FillRect(g, r, color);
    var d := DrawImage(f, r, c);
    if r.Contains(Point(x, y)) {
      CopyPixel(g, w, h, r, Point(x, y));
      assert d[x][y] == c[x - r.left][y - r.top];
    } else {
      assert d[x][y] == f[x][y];
    }
  }

  /** A copy of a valid rectangle has the rectangle's size and holds, at
      each offset from its corner, the image's pixel there. */
  lemma CopyPixel(g: seq<seq<int>>, w: nat, h: nat, r: Rect, p: Point)
    requires IsGrid(g, w, h) && r.IsValid() && r.Contains(p) && Inside(w, h, p)
    ensures Copy(g, w, h, r).Some? && IsGrid(Copy(g, w, h, r).value, r.width, r.height)
    ensures Copy(g, w, h, r).value[p.x - r.left][p.y - r.top] == g[p.x][p.y]
  {
    var i, j := p.x - r.left, p.y - r.top;
    assert Point(r.left + i, r.top + j) == p;
  }

  /** Dropping the lifted pixels only writes inside the selection. */
  lemma DropStaysInside(g: seq<seq<int>>, selection: Rect, lifted: Option<seq<seq<int>>>, p: Point)
    requires 0 <= p.x < |g| && 0 <= p.y < |g[p.x]| && !selection.Contains(p)
    ensures |Dropped(g, selection, lifted)| == |g| && Dropped(g, selection, lifted)[p.x][p.y] == g[p.x][p.y]
  {
  }

  /** The state the editor hands to SelectionTool::Use through pointers: the
      image, the selection rectangle, the lifted image (None for a null
      QImage), the anchor and the `started` flag. `undo` records the image
      snapshots handed to the undo stack. */
  class SelectionState {
    const image: array2<int>
    var selection: Rect
    var lifted: Option<seq<seq<int>>>
    var anchor: Point
    var started: bool
    ghost var undo: seq<seq<seq<int>>>

    /** While a new selection is being drawn nothing is lifted, and a lifted
        image always has the size of a selection that is not null (a
        release after a right press leaves a null selection and a copy of the
        whole image). Every operation keeps it. The pixel contracts do not
        rely on it: DrawImage checks the lifted image's size pixel by pixel,
        as the same-size drawImage call it models needs no more. */
    ghost predicate Valid()
      reads this
    {
      (started ==> lifted == None) &&
      (lifted.Some? && !selection.IsNull() ==>
         selection.IsValid() && IsGrid(lifted.value, selection.width, selection.height))
    }

    constructor (img: array2<int>)
      ensures image == img && selection == NullRect && lifted == None
      ensures anchor == Point(0, 0) && !started && undo == []
      ensures Valid()
    {
      image := img;
      selection := NullRect;
      lifted := None;
      anchor := Point(0, 0);
      started := false;
      undo := [];
    }

    /** ClearSelection: draws the lifted image back into the selection
        rectangle, then forgets both. */
    method ClearSelection()
      modifies this, image
      ensures selection == NullRect && lifted == None
      ensures anchor == old(anchor) && started == old(started) && undo == old(undo)
      ensures Pixels(image) == Dropped(old(Pixels(image)), old(selection), old(lifted))
      ensures Valid()
    {
      if lifted.Some? {
        var src, r := lifted.value, selection;
        forall x, y | 0 <= x < image.Length0 && 0 <= y < image.Length1 && r.Contains(Point(x, y)) &&
                      x - r.left < |src| && y - r.top < |src[x - r.left]| {
          image[x, y] := src[x - r.left][y - r.top];
        }
        GridsEqual(Pixels(image), DrawImage(old(Pixels(image)), r, src), image.Length0, image.Length1);
      }
      lifted := None;
      selection := NullRect;
    }

    /** SelectionTool::Use: one press, move or release event. */
    method Use(color: int, event: ToolEvent)
      requires Valid()
      modifies this, image
      ensures Valid()
      // A left press inside a valid selection grabs it at the pointer.
      ensures event.action == Press && event.lmbDown && old(selection).IsValid() && old(selection).Contains(event.imgPos) ==>
                anchor == event.imgPos.Minus(Center(old(selection))) &&
                selection == old(selection) && lifted == old(lifted) && started == old(started) &&
                Pixels(image) == old(Pixels(image))
      // Any other left press drops the old selection and starts a new one at the pointer.
      ensures event.action == Press && event.lmbDown && !(old(selection).IsValid() && old(selection).Contains(event.imgPos)) ==>
                anchor == event.imgPos && started && selection == GetRect(event.imgPos, event.imgPos) &&
                lifted == None && Pixels(image) == Dropped(old(Pixels(image)), old(selection), old(lifted))
      // A press without the left button only clears the selection.
      ensures event.action == Press && !event.lmbDown ==>
                selection == NullRect && lifted == None && anchor == old(anchor) && started == old(started) &&
                Pixels(image) == Dropped(old(Pixels(image)), old(selection), old(lifted))
      // A move stretches a new selection from the anchor, or drags a grabbed one.
      ensures event.action == Move ==>
                selection == (if old(started) then GetRect(old(anchor), event.imgPos)
                              else if old(selection).IsValid() && event.lmbDown
                              then MoveCenter(old(selection), event.imgPos.Minus(old(anchor)))
                              else old(selection)) &&
                lifted == old(lifted) && anchor == old(anchor) && started == old(started) &&
                Pixels(image) == old(Pixels(image))
      // The release that ends a new selection saves the image for undo, lifts
      // the selected pixels and paints the hole; every release ends the drawing.
      ensures event.action == Release ==>
                !started && selection == old(selection) && anchor == old(anchor) &&
                if old(started) then
                  undo == old(undo) + [old(Pixels(image))] &&
                  lifted == Copy(old(Pixels(image)), image.Length0, image.Length1, old(selection)) &&
                  Pixels(image) == FillRect(old(Pixels(image)), old(selection), color)
                else
                  undo == old(undo) && lifted == old(lifted) && Pixels(image) == old(Pixels(image))
      ensures event.action != Release ==> undo == old(undo)
    {
      var pos := event.imgPos;
      if event.action == Press {
        if event.lmbDown {
          if selection.IsValid() && selection.Contains(pos) {
            anchor := pos.Minus(Center(selection));
          } else {
            ClearSelection();
            anchor := pos;
            started := true;
            selection := GetRect(anchor, pos);
          }
        } else {
          ClearSelection();
        }
      } else if event.action == Move {
        if started {
          selection := GetRect(anchor, pos);
        } else if selection.IsValid() && event.lmbDown {
          selection := MoveCenter(selection, pos.Minus(anchor));
        }
      } else {
        if started {
          undo := undo + [Pixels(image)];
          lifted := Copy(Pixels(image), image.Length0, image.Length1, selection);
          var r := selection;
          forall x, y | 0 <= x < image.Length0 && 0 <= y < image.Length1 && r.Contains(Point(x, y)) {
            image[x, y] := color;
          }
          GridsEqual(Pixels(image), FillRect(old(Pixels(image)), r, color), image.Length0, image.Length1);
        }
        started := false;
      }
    }
  }
}
