/** ToolAlgorithm: the raster routines the drawing tools call. Each works in
    place on an image, a `width x height` array of colours indexed `img[x, y]`. */
module ToolAlgorithm {
  import opened Geometry
  import opened Raster
  import opened Bresenham

  /** SetPixel(image, x, y, color): writes only inside the image rectangle. */
  method SetPixel(img: array2<int>, x: int, y: int, color: int)
    modifies img
    ensures Painted(img, [Point(x, y)], color)
  {
    if Inside(img.Length0, img.Length1, Point(x, y)) {
      img[x, y] := color;
    }
    GridsEqual(Pixels(img), Paint(old(Pixels(img)), [Point(x, y)], color), img.Length0, img.Length1);
  }

  /** SetPixel(image, p, color), the QPoint overload. */
  method SetPixelAt(img: array2<int>, p: Point, color: int)
    modifies img
    ensures Painted(img, [p], color)
  {
    if Inside(img.Length0, img.Length1, p) {
      img[p.x, p.y] := color;
    }
    GridsEqual(Pixels(img), Paint(old(Pixels(img)), [p], color), img.Length0, img.Length1);
  }

  /** The state FloodFill keeps between steps, against the snapshot `base`
      of the image on entry: exactly the pixels of `order` have been
      recoloured, each of them lies inside the image and held `oldColor`, no
      pixel was found twice, and each was found next to an earlier one. */
  ghost predicate Filling(img: array2<int>, base: seq<seq<int>>, oldColor: int, newColor: int,
                          order: seq<Point>, parent: seq<int>)
    reads img
  {
    IsGrid(base, img.Length0, img.Length1) &&
    Pixels(img) == Paint(base, order, newColor) &&
    (forall i :: 0 <= i < |order| ==>
       Inside(img.Length0, img.Length1, order[i]) && base[order[i].x][order[i].y] == oldColor) &&
    Distinct(order) && GrownFrom(order, parent)
  }

  /** The pixel `p`, if it lies inside the `w x h` snapshot `base`, has
      been recoloured or never held `oldColor`. */
  ghost predicate Claimed(base: seq<seq<int>>, w: nat, h: nat, oldColor: int, order: seq<Point>, p: Point)
    requires IsGrid(base, w, h)
  {
    Inside(w, h, p) ==> p in order || base[p.x][p.y] != oldColor
  }

  /** Every neighbour of the first `k` pixels of `order` has been claimed. */
  ghost predicate Expanded(base: seq<seq<int>>, w: nat, h: nat, oldColor: int, order: seq<Point>, k: int)
    requires IsGrid(base, w, h) && k <= |order|
  {
    forall i, d :: 0 <= i < k && 0 <= d < 4 ==> Claimed(base, w, h, oldColor, order, Neighbour(order[i], d))
  }

  /** Flood fill from `seed` over the 4-connected pixels of the seed's colour,
      driven by a FIFO work list. The ghost results record the fill: `order`
      lists the recoloured pixels in the order they were enqueued, `parent[i]`
      the earlier pixel next to which `order[i]` was found, and `iterations`
      the passes of the main loop. */
  method FloodFill(img: array2<int>, seed: Point, color: int)
    returns (ghost order: seq<Point>, ghost parent: seq<int>, ghost iterations: nat)
    requires Inside(img.Length0, img.Length1, seed)
    modifies img
    ensures old(img[seed.x, seed.y]) == color ==> order == []
    ensures old(img[seed.x, seed.y]) != color ==> |order| > 0 && order[0] == seed
    ensures Painted(img, order, color)
    ensures forall i :: 0 <= i < |order| ==>
              Inside(img.Length0, img.Length1, order[i]) &&
              old(img[order[i].x, order[i].y]) == old(img[seed.x, seed.y])
    ensures Distinct(order) && GrownFrom(order, parent)
    ensures forall i, d :: 0 <= i < |order| && 0 <= d < 4 && Inside(img.Length0, img.Length1, Neighbour(order[i], d)) ==>
              img[Neighbour(order[i], d).x, Neighbour(order[i], d).y] != old(img[seed.x, seed.y])
    ensures iterations == |order| <= img.Length0 * img.Length1
    ensures old(img[seed.x, seed.y]) != color ==>
              forall p :: p in order <==> p in Component(old(Pixels(img)), img.Length0, img.Length1, seed)
  {
    ghost var base := Pixels(img);
    var newColor := color;
    var oldColor := img[seed.x, seed.y];
    order, parent, iterations := [], [], 0;
    if newColor == oldColor {
      PaintNothing(base, color);
      return;
    }
    var toDo := [seed];
    img[seed.x, seed.y] := newColor;
    order, parent := [seed], [0];
    GridsEqual(Pixels(img), Paint(base, order, newColor), img.Length0, img.Length1);
    DistinctInsideBound(order, img.Length0, img.Length1);

    while toDo != []
      invariant oldColor == base[seed.x][seed.y] != newColor
      invariant |order| > 0 && order[0] == seed
      invariant Filling(img, base, oldColor, newColor, order, parent)
      invariant |toDo| <= |order| && toDo == order[|order| - |toDo|..]
      invariant iterations == |order| - |toDo| <= img.Length0 * img.Length1
      invariant Expanded(base, img.Length0, img.Length1, oldColor, order, iterations)
      decreases img.Length0 * img.Length1 - iterations
    {
      var target := toDo[0];
      toDo := toDo[1..];
      toDo, order, parent := Expand(img, target, toDo, oldColor, newColor, base, order, parent, iterations);
      iterations := iterations + 1;
      DistinctInsideBound(order, img.Length0, img.Length1);
    }
    FilledIsClosed(img, base, oldColor, newColor, order, parent);
    FillIsComponent(base, img.Length0, img.Length1, seed, order, parent);
  }

  /** A fill that starts at `seed`, grows only through pixels of the seed's
      colour and leaves no neighbour of that colour unclaimed has discovered
      exactly the seed's 4-connected component. */
  lemma {:induction false} FillIsComponent(base: seq<seq<int>>, w: nat, h: nat, seed: Point,
                                           order: seq<Point>, parent: seq<int>)
    requires IsGrid(base, w, h) && Inside(w, h, seed)
    requires |order| > 0 && order[0] == seed && GrownFrom(order, parent)
    requires forall i :: 0 <= i < |order| ==>
               Inside(w, h, order[i]) && base[order[i].x][order[i].y] == base[seed.x][seed.y]
    requires Expanded(base, w, h, base[seed.x][seed.y], order, |order|)
    ensures forall p :: p in order <==> p in Component(base, w, h, seed)
  {
    var oldColor := base[seed.x][seed.y];
    var region := Region(base, w, h, oldColor);
    forall p | p in order ensures p in Component(base, w, h, seed) {
      var k :| 0 <= k < |order| && order[k] == p;
      var path := PathFromSeed(order, parent, k);
      forall i | 0 <= i < |path| ensures path[i] in region {
        assert path[i] in order;
        var j :| 0 <= j < |order| && order[j] == path[i];
        InRegion(base, w, h, oldColor, order[j]);
      }
      InRegion(base, w, h, oldColor, p);
    }
    forall p | p in Component(base, w, h, seed) ensures p in order {
      var path :| IsPath(path, region) && path[0] == seed && path[|path| - 1] == p;
      forall i, d | 0 <= i < |order| && 0 <= d < 4 && Neighbour(order[i], d) in region
        ensures Neighbour(order[i], d) in order
      {
        InRegion(base, w, h, oldColor, Neighbour(order[i], d));
        assert Claimed(base, w, h, oldColor, order, Neighbour(order[i], d));
      }
      ClosedRegionHoldsPaths(region, order, path);
    }
  }

  /** Once every discovered pixel has been expanded, no pixel next to one of
      them still holds `oldColor`. */
  lemma FilledIsClosed(img: array2<int>, base: seq<seq<int>>, oldColor: int, newColor: int,
                       order: seq<Point>, parent: seq<int>)
    requires oldColor != newColor && Filling(img, base, oldColor, newColor, order, parent)
    requires Expanded(base, img.Length0, img.Length1, oldColor, order, |order|)
    ensures forall i, d :: 0 <= i < |order| && 0 <= d < 4 && Inside(img.Length0, img.Length1, Neighbour(order[i], d)) ==>
              img[Neighbour(order[i], d).x, Neighbour(order[i], d).y] != oldColor
  {
    forall i, d | 0 <= i < |order| && 0 <= d < 4 && Inside(img.Length0, img.Length1, Neighbour(order[i], d))
      ensures img[Neighbour(order[i], d).x, Neighbour(order[i], d).y] != oldColor
    {
      var q := Neighbour(order[i], d);
      assert Claimed(base, img.Length0, img.Length1, oldColor, order, q);
      assert img[q.x, q.y] == Pixels(img)[q.x][q.y] == Paint(base, order, newColor)[q.x][q.y];
    }
  }

  /** The body of FloodFill's main loop: recolours every neighbour of
      `target` that still holds `oldColor` and appends it to the work list. */
  method Expand(img: array2<int>, target: Point, toDo: seq<Point>, oldColor: int, newColor: int,
                ghost base: seq<seq<int>>, ghost order: seq<Point>, ghost parent: seq<int>, ghost t: nat)
    returns (toDo': seq<Point>, ghost order': seq<Point>, ghost parent': seq<int>)
    requires oldColor != newColor
    requires Filling(img, base, oldColor, newColor, order, parent)
    requires t < |order| && order[t] == target && toDo == order[t + 1..]
    requires Expanded(base, img.Length0, img.Length1, oldColor, order, t)
    modifies img
    ensures Filling(img, base, oldColor, newColor, order', parent')
    ensures |order| <= |order'| && order'[..|order|] == order && toDo' == order'[t + 1..]
    ensures Expanded(base, img.Length0, img.Length1, oldColor, order', t + 1)
  {
    toDo', order', parent' := toDo, order, parent;
    for k := 0 to 4
      invariant Filling(img, base, oldColor, newColor, order', parent')
      invariant |order| <= |order'| && order'[..|order|] == order && toDo' == order'[t + 1..]
      invariant Expanded(base, img.Length0, img.Length1, oldColor, order', t)
      invariant forall d :: 0 <= d < k ==> Claimed(base, img.Length0, img.Length1, oldColor, order', Neighbour(target, d))
    {
      ghost var before := order';
      toDo', order', parent' := Visit(img, target, k, toDo', oldColor, newColor, base, order', parent', t);
      assert order'[..|order|] == before[..|order|];
    }
  }

  /** One step of Expand: the neighbour of `target` in direction `k` is
      recoloured and queued if it lies inside the image and holds `oldColor`. */
  method Visit(img: array2<int>, target: Point, k: nat, toDo: seq<Point>, oldColor: int, newColor: int,
               ghost base: seq<seq<int>>, ghost order: seq<Point>, ghost parent: seq<int>, ghost t: nat)
    returns (toDo': seq<Point>, ghost order': seq<Point>, ghost parent': seq<int>)
    requires k < 4 && oldColor != newColor
    requires Filling(img, base, oldColor, newColor, order, parent)
    requires t < |order| && order[t] == target && toDo == order[t + 1..]
    modifies img
    ensures Filling(img, base, oldColor, newColor, order', parent')
    ensures order' == order || order' == order + [Neighbour(target, k)]
    ensures toDo' == order'[t + 1..]
    ensures Claimed(base, img.Length0, img.Length1, oldColor, order', Neighbour(target, k))
  {
    toDo', order', parent' := toDo, order, parent;
    var newTarget := target.Plus(Expansion[k]);
    if Inside(img.Length0, img.Length1, newTarget) {
      assert img[newTarget.x, newTarget.y] == Pixels(img)[newTarget.x][newTarget.y]
                                           == Paint(base, order, newColor)[newTarget.x][newTarget.y];
    }
    if Inside(img.Length0, img.Length1, newTarget) && img[newTarget.x, newTarget.y] == oldColor {
      assert newTarget !in order;
      NeighbourIsAdjacent(target, k);
      DistinctSnoc(order, newTarget);
      GrownFromSnoc(order, parent, newTarget, t);
      toDo' := toDo + [newTarget];
      ghost var g := Pixels(img);
      img[newTarget.x, newTarget.y] := newColor;
      GridsEqual(Pixels(img), Paint(g, [newTarget], newColor), img.Length0, img.Length1);
      PaintTwice(base, order, [newTarget], newColor);
      order', parent' := order + [newTarget], parent + [t];
    }
  }

  /** BresenhamLine: plots `p1`, then steps along the longer axis until it
      reaches `p2`. The ghost result lists the points handed to SetPixel. */
  method BresenhamLine(img: array2<int>, p1: Point, p2: Point, color: int) returns (ghost plotted: seq<Point>)
    modifies img
    ensures plotted == LinePoints(p1, p2)
    ensures Painted(img, plotted, color)
  {
    var x1, y1 := p1.x, p1.y;
    var x2, y2 := p2.x, p2.y;
    var deltaX := x2 - x1;
    var ix := Sign(deltaX);
    deltaX := 2 * Abs(deltaX);
    var deltaY := y2 - y1;
    var iy := Sign(deltaY);
    deltaY := 2 * Abs(deltaY);

    LinePointsIs(p1, p2, deltaX, deltaY, ix, iy);
    assert Point(x1, y1) == p1;

    SetPixel(img, x1, y1, color);
    ghost var rest;
    if deltaX >= deltaY {
      rest := LineAlongX(img, x1, y1, x2, ix, iy, deltaX, deltaY, color);
    } else {
      rest := LineAlongY(img, x1, y1, y2, ix, iy, deltaX, deltaY, color);
    }
    plotted := [p1] + rest;
    PaintTwice(old(Pixels(img)), [p1], rest, color);
  }

  /** The branch of BresenhamLine for lines no steeper than 45 degrees: x
      advances by `ix` on every step, y by `iy` when the error term says so. */
  method LineAlongX(img: array2<int>, fromX: int, fromY: int, x2: int, ix: int, iy: int, deltaX: int, deltaY: int, color: int)
    returns (ghost plotted: seq<Point>)
    requires fromX == x2 || ix == Sign(x2 - fromX)
    modifies img
    ensures plotted == Walk(fromX, fromY, deltaY - deltaX / 2, x2, ix, iy, deltaX, deltaY, true)
    ensures Painted(img, plotted, color)
  {
    var x1, y1 := fromX, fromY;
    var error := deltaY - deltaX / 2;
    plotted := [];
    PaintNothing(Pixels(img), color);
    while x1 != x2
      invariant x1 == x2 || ix == Sign(x2 - x1)
      invariant Walk(fromX, fromY, deltaY - deltaX / 2, x2, ix, iy, deltaX, deltaY, true) ==
                plotted + Walk(x1, y1, error, x2, ix, iy, deltaX, deltaY, true)
      invariant Painted(img, plotted, color)
      decreases Abs(x2 - x1)
    {
      ghost var (u, v, err) := (x1, y1, error);
      if error >= 0 && (error != 0 || ix > 0) {
        error := error - deltaX;
        y1 := y1 + iy;
      }
      error := error + deltaY;
      x1 := x1 + ix;
      WalkUnfold(plotted, u, v, err, x2, ix, iy, deltaX, deltaY, true, y1, error);
      assert Plot(x1, y1, true) == Point(x1, y1);
      SetPixel(img, x1, y1, color);
      PaintTwice(old(Pixels(img)), plotted, [Point(x1, y1)], color);
      plotted := plotted + [Point(x1, y1)];
    }
  }

  /** The branch of BresenhamLine for lines steeper than 45 degrees, with the
      roles of x and y exchanged. */
  method LineAlongY(img: array2<int>, fromX: int, fromY: int, y2: int, ix: int, iy: int, deltaX: int, deltaY: int, color: int)
    returns (ghost plotted: seq<Point>)
    requires fromY == y2 || iy == Sign(y2 - fromY)
    modifies img
    ensures plotted == Walk(fromY, fromX, deltaX - deltaY / 2, y2, iy, ix, deltaY, deltaX, false)
    ensures Painted(img, plotted, color)
  {
    var x1, y1 := fromX, fromY;
    var error := deltaX - deltaY / 2;
    plotted := [];
    PaintNothing(Pixels(img), color);
    while y1 != y2
      invariant y1 == y2 || iy == Sign(y2 - y1)
      invariant Walk(fromY, fromX, deltaX - deltaY / 2, y2, iy, ix, deltaY, deltaX, false) ==
                plotted + Walk(y1, x1, error, y2, iy, ix, deltaY, deltaX, false)
      invariant Painted(img, plotted, color)
      decreases Abs(y2 - y1)
    {
      ghost var (u, v, err) := (y1, x1, error);
      if error >= 0 && (error != 0 || iy > 0) {
        error := error - deltaY;
        x1 := x1 + ix;
      }
      error := error + deltaX;
      y1 := y1 + iy;
      WalkUnfold(plotted, u, v, err, y2, iy, ix, deltaY, deltaX, false, x1, error);
      assert Plot(y1, x1, false) == Point(x1, y1);
      SetPixel(img, x1, y1, color);
      PaintTwice(old(Pixels(img)), plotted, [Point(x1, y1)], color);
      plotted := plotted + [Point(x1, y1)];
    }
  }

  /** Plot4EllipsePoints: the point `c + p`, its mirror `c - p + e` through
      the centre and the two mixed corners. */
  method Plot4EllipsePoints(img: array2<int>, c: Point, p: Point, e: Point, color: int)
    returns (ghost plotted: seq<Point>)
    modifies img
    ensures plotted == Plot4Points(c, p, e)
    ensures Painted(img, plotted, color)
  {
    var p1 := c.Plus(p);
    var p2 := c.Minus(p).Plus(e);
    ghost var g := Pixels(img);
    SetPixelAt(img, p1, color);
    SetPixelAt(img, p2, color);
    PaintTwice(g, [p1], [p2], color);
    assert [p1] + [p2] == [p1, p2];
    SetPixel(img, p1.x, p2.y, color);
    PaintTwice(g, [p1, p2], [Point(p1.x, p2.y)], color);
    assert [p1, p2] + [Point(p1.x, p2.y)] == [p1, p2, Point(p1.x, p2.y)];
    SetPixel(img, p2.x, p1.y, color);
    PaintTwice(g, [p1, p2, Point(p1.x, p2.y)], [Point(p2.x, p1.y)], color);
    assert [p1, p2, Point(p1.x, p2.y)] + [Point(p2.x, p1.y)] == [p1, p2, Point(p1.x, p2.y), Point(p2.x, p1.y)];
    plotted := [p1, p2, Point(p1.x, p2.y), Point(p2.x, p1.y)];
  }

  /** Bresenham4LinesEllipse: BresenhamLine from `p1` to `p2` in quadrant
      coordinates, with every point mirrored four ways about `c`. */
  method Bresenham4LinesEllipse(img: array2<int>, p1: Point, p2: Point, c: Point, e: Point, color: int)
    returns (ghost quad: seq<Point>)
    modifies img
    ensures quad == LinePoints(p1, p2)
    ensures Painted(img, Mirrors(c, e, quad), color)
  {
    var x1, y1 := p1.x, p1.y;
    var x2, y2 := p2.x, p2.y;
    var deltaX := x2 - x1;
    var ix := Sign(deltaX);
    deltaX := 2 * Abs(deltaX);
    var deltaY := y2 - y1;
    var iy := Sign(deltaY);
    deltaY := 2 * Abs(deltaY);

    LinePointsIs(p1, p2, deltaX, deltaY, ix, iy);
    assert Point(x1, y1) == p1;
    assert Mirrors(c, e, [p1]) == Plot4Points(c, p1, e) by { assert [p1][..0] == []; }

    ghost var first := Plot4EllipsePoints(img, c, Point(x1, y1), e, color);
    ghost var rest;
    if deltaX >= deltaY {
      rest := Mirror4AlongX(img, x1, y1, x2, ix, iy, deltaX, deltaY, c, e, color);
    } else {
      rest := Mirror4AlongY(img, x1, y1, y2, ix, iy, deltaX, deltaY, c, e, color);
    }
    quad := [p1] + rest;
    MirrorsAppend(c, e, [p1], rest);
    PaintTwice(old(Pixels(img)), first, Mirrors(c, e, rest), color);
  }

  /** The x-major branch of Bresenham4LinesEllipse. */
  method Mirror4AlongX(img: array2<int>, fromX: int, fromY: int, x2: int, ix: int, iy: int, deltaX: int, deltaY: int,
                       c: Point, e: Point, color: int)
    returns (ghost quad: seq<Point>)
    requires fromX == x2 || ix == Sign(x2 - fromX)
    modifies img
    ensures quad == Walk(fromX, fromY, deltaY - deltaX / 2, x2, ix, iy, deltaX, deltaY, true)
    ensures Painted(img, Mirrors(c, e, quad), color)
  {
    var x1, y1 := fromX, fromY;
    var error := deltaY - deltaX / 2;
    quad := [];
    ghost var painted := [];
    PaintNothing(Pixels(img), color);
    while x1 != x2
      invariant x1 == x2 || ix == Sign(x2 - x1)
      invariant Walk(fromX, fromY, deltaY - deltaX / 2, x2, ix, iy, deltaX, deltaY, true) ==
                quad + Walk(x1, y1, error, x2, ix, iy, deltaX, deltaY, true)
      invariant painted == Mirrors(c, e, quad)
      invariant Painted(img, painted, color)
      decreases Abs(x2 - x1)
    {
      ghost var (u, v, err) := (x1, y1, error);
      if error >= 0 && (error != 0 || ix > 0) {
        error := error - deltaX;
        y1 := y1 + iy;
      }
      error := error + deltaY;
      x1 := x1 + ix;
      WalkUnfold(quad, u, v, err, x2, ix, iy, deltaX, deltaY, true, y1, error);
      assert Plot(x1, y1, true) == Point(x1, y1);
      ghost var four := Plot4EllipsePoints(img, c, Point(x1, y1), e, color);
      MirrorsSnoc(c, e, quad, Point(x1, y1));
      PaintTwice(old(Pixels(img)), painted, four, color);
      quad, painted := quad + [Point(x1, y1)], painted + four;
    }
  }

  /** The y-major branch of Bresenham4LinesEllipse. */
  method Mirror4AlongY(img: array2<int>, fromX: int, fromY: int, y2: int, ix: int, iy: int, deltaX: int, deltaY: int,
                       c: Point, e: Point, color: int)
    returns (ghost quad: seq<Point>)
    requires fromY == y2 || iy == Sign(y2 - fromY)
    modifies img
    ensures quad == Walk(fromY, fromX, deltaX - deltaY / 2, y2, iy, ix, deltaY, deltaX, false)
    ensures Painted(img, Mirrors(c, e, quad), color)
  {
    var x1, y1 := fromX, fromY;
    var error := deltaX - deltaY / 2;
    quad := [];
    ghost var painted := [];
    PaintNothing(Pixels(img), color);
    while y1 != y2
      invariant y1 == y2 || iy == Sign(y2 - y1)
      invariant Walk(fromY, fromX, deltaX - deltaY / 2, y2, iy, ix, deltaY, deltaX, false) ==
                quad + Walk(y1, x1, error, y2, iy, ix, deltaY, deltaX, false)
      invariant painted == Mirrors(c, e, quad)
      invariant Painted(img, painted, color)
      decreases Abs(y2 - y1)
    {
      ghost var (u, v, err) := (y1, x1, error);
      if error >= 0 && (error != 0 || iy > 0) {
        error := error - deltaY;
        x1 := x1 + ix;
      }
      error := error + deltaX;
      y1 := y1 + iy;
      WalkUnfold(quad, u, v, err, y2, iy, ix, deltaY, deltaX, false, x1, error);
      assert Plot(y1, x1, false) == Point(x1, y1);
      ghost var four := Plot4EllipsePoints(img, c, Point(x1, y1), e, color);
      MirrorsSnoc(c, e, quad, Point(x1, y1));
      PaintTwice(old(Pixels(img)), painted, four, color);
      quad, painted := quad + [Point(x1, y1)], painted + four;
    }
  }

  /** BresenhamEllipse: the ellipse inscribed in `rect`, outlined or filled.
      Its quadrant points are traced by two loops, the first along the flat
      part of the arc from `(rx, 0)`, the second along the steep part from
      `(0, ry)`, and joined by a mirrored line when the two arcs end more than
      one pixel apart. Every quadrant point is mirrored four ways about the
      centre, with the parity offset `e` for even sides. The ghost results
      are the two arcs `hs` and `vs`, whether the joining line was drawn,
      and `quad`, every quadrant point handed to Plot4EllipsePoints. */
  method BresenhamEllipse(img: array2<int>, rect: Rect, fill: bool, color: int)
    returns (ghost hs: seq<Point>, ghost vs: seq<Point>, ghost bridged: bool, ghost quad: seq<Point>)
    modifies img
    ensures !rect.IsValid() ==> hs == [] && vs == [] && !bridged && quad == [] && Painted(img, [], color)
    ensures rect.IsValid() ==> EllipseTrace(Half(rect.width), Half(rect.height), fill, hs, vs, bridged, quad)
    ensures rect.IsValid() ==> Painted(img, Mirrors(Center(rect), Parity(rect), quad), color)
  {
    var c := Center(rect);
    var rX := Half(rect.width);
    var rY := Half(rect.height);
    hs, vs, bridged, quad := [], [], false, [];

    if rect.width <= 0 || rect.height <= 0 {
      PaintNothing(Pixels(img), color);
      return;
    }
    var e := Parity(rect);
    hs, vs, bridged, quad := EllipseFrom(img, c, e, rX, rY, fill, color);
  }

  /** The body of BresenhamEllipse once the centre `c`, the parity offset
      `e` and the radii are known and the rectangle is not empty: the two
      loops and the joining line. A 1 x 1 rectangle has both radii zero, and
      then each loop makes a single pass at the centre. */
  method EllipseFrom(img: array2<int>, c: Point, e: Point, rX: int, rY: int, fill: bool, color: int)
    returns (ghost hs: seq<Point>, ghost vs: seq<Point>, ghost bridged: bool, ghost quad: seq<Point>)
    requires rX >= 0 && rY >= 0
    modifies img
    ensures EllipseTrace(rX, rY, fill, hs, vs, bridged, quad)
    ensures Painted(img, Mirrors(c, e, quad), color)
  {
    var lastH, lastV;
    ghost var quadH, quadV, paintedH, paintedV;
    if rX == 0 && rY == 0 {
      lastH, lastV := Point(0, 0), Point(0, 0);
      quadH, paintedH := PlotHorizontalArcPoint(img, c, lastH, e, fill, color);
      quadV, paintedV := PlotVerticalArcPoint(img, c, lastV, e, fill, color);
      hs, vs := [lastH], [lastV];
      assert [lastH][..0] == [];
    } else {
      lastH, hs, quadH, paintedH := HorizontalArc(img, c, e, rX, rY, fill, color);
      lastV, vs, quadV, paintedV := VerticalArc(img, c, e, rX, rY, fill, color);
    }
    MirrorsAppend(c, e, quadH, quadV);
    quad := quadH + quadV;
    ghost var painted := paintedH + paintedV;
    PaintTwice(old(Pixels(img)), paintedH, paintedV, color);
    bridged := false;

    if Apart(lastH, lastV) {
      ghost var bridge := Bresenham4LinesEllipse(img, lastH, lastV, c, e, color);
      MirrorsAppend(c, e, quad, bridge);
      PaintTwice(old(Pixels(img)), painted, Mirrors(c, e, bridge), color);
      painted := painted + Mirrors(c, e, bridge);
      quad := quad + bridge;
      bridged := true;
    }
  }

  /** The first loop of BresenhamEllipse, from `(rx, 0)` while
      `stopping_x >= stopping_y`. It returns its last arc point. */
  method HorizontalArc(img: array2<int>, c: Point, e: Point, rX: int, rY: int, fill: bool, color: int)
    returns (lastH: Point, ghost hs: seq<Point>, ghost quad: seq<Point>, ghost painted: seq<Point>)
    requires rX >= 0 && rY >= 0 && (rX > 0 || rY > 0)
    modifies img
    ensures HorizontalRun(rX, rY, hs) && |hs| > 0 && lastH == hs[|hs| - 1]
    ensures quad == Spans(hs, fill, true)
    ensures painted == Mirrors(c, e, quad)
    ensures Painted(img, painted, color)
  {
    var twoASquare := 2 * rX * rX;
    var twoBSquare := 2 * rY * rY;
    Squares(rX);
    Squares(rY);
    var s := ArcState(rX, 0, rY * rY * (1 - 2 * rX), rX * rX, 0, twoBSquare * rX, 0);
    assert s == HorizontalStart(rX, rY);
    if rX == 0 {
      NarrowArcStops(rY);
    }
    lastH, hs, quad, painted := HorizontalLoop(img, c, e, s, twoASquare, twoBSquare, fill, color);
  }

  /** The loop itself, from the state `s0` with the constants `2 rx^2` and
      `2 ry^2` of the first loop. */
  method HorizontalLoop(img: array2<int>, c: Point, e: Point, s0: ArcState, twoASquare: int, twoBSquare: int, fill: bool, color: int)
    returns (lastH: Point, ghost hs: seq<Point>, ghost quad: seq<Point>, ghost painted: seq<Point>)
    requires twoASquare >= 0 && twoBSquare >= 0 && s0.stopX >= s0.stopY
    requires twoASquare == 0 ==>
               HorizontalPasses(s0, twoASquare, twoBSquare, 1).stopX < HorizontalPasses(s0, twoASquare, twoBSquare, 1).stopY
    modifies img
    ensures HorizontalPrefix(s0, twoASquare, twoBSquare, hs)
    ensures HorizontalPasses(s0, twoASquare, twoBSquare, |hs|).stopX < HorizontalPasses(s0, twoASquare, twoBSquare, |hs|).stopY
    ensures |hs| > 0 && lastH == hs[|hs| - 1]
    ensures quad == Spans(hs, fill, true)
    ensures painted == Mirrors(c, e, quad)
    ensures Painted(img, painted, color)
  {
    var s := s0;
    lastH := Point(0, 0);
    hs, quad, painted := [], [], [];
    PaintNothing(Pixels(img), color);

    while s.stopX >= s.stopY
      invariant s == HorizontalPasses(s0, twoASquare, twoBSquare, |hs|)
      invariant HorizontalPrefix(s0, twoASquare, twoBSquare, hs)
      invariant hs != [] ==> lastH == hs[|hs| - 1]
      invariant twoASquare == 0 && hs != [] ==> s.stopX < s.stopY
      invariant quad == Spans(hs, fill, true)
      invariant painted == Mirrors(c, e, quad)
      invariant Painted(img, painted, color)
      decreases s.stopX - s.stopY
    {
      lastH := Point(s.x, s.y);
      s, hs, quad, painted := HorizontalPass(img, c, e, s0, s, twoASquare, twoBSquare, fill, color,
                                             old(Pixels(img)), hs, quad, painted);
    }
  }

  /** One pass of the first loop: plot the arc point `(x, y)`, then let `y` go
      up by one and `x` down by one whenever the error term says so. The
      ghost parameters carry the loop's record so far against the snapshot
      `base` of the image when the loop started. */
  method HorizontalPass(img: array2<int>, c: Point, e: Point, s0: ArcState, s: ArcState, twoASquare: int, twoBSquare: int,
                        fill: bool, color: int, ghost base: seq<seq<int>>, ghost hs: seq<Point>, ghost quad: seq<Point>,
                        ghost painted: seq<Point>)
    returns (t: ArcState, ghost hs': seq<Point>, ghost quad': seq<Point>, ghost painted': seq<Point>)
    requires twoASquare >= 0 && twoBSquare >= 0
    requires s == HorizontalPasses(s0, twoASquare, twoBSquare, |hs|) && s.stopX >= s.stopY
    requires HorizontalPrefix(s0, twoASquare, twoBSquare, hs)
    requires quad == Spans(hs, fill, true) && painted == Mirrors(c, e, quad)
    requires Pixels(img) == Paint(base, painted, color)
    modifies img
    ensures t == HorizontalPasses(s0, twoASquare, twoBSquare, |hs'|) && hs' == hs + [Point(s.x, s.y)]
    ensures twoASquare > 0 ==> t.stopX - t.stopY <= s.stopX - s.stopY - twoASquare
    ensures HorizontalPrefix(s0, twoASquare, twoBSquare, hs')
    ensures quad' == Spans(hs', fill, true) && painted' == Mirrors(c, e, quad')
    ensures Pixels(img) == Paint(base, painted', color)
  {
    ghost var piece, piecePainted := PlotHorizontalArcPoint(img, c, Point(s.x, s.y), e, fill, color);
    HorizontalPassStep(s0, s, twoASquare, twoBSquare, hs);
    SpansSnoc(c, e, hs, Point(s.x, s.y), fill, true);
    PaintTwice(base, painted, piecePainted, color);
    t := HorizontalUpdate(s, twoASquare, twoBSquare);
    hs', quad', painted' := hs + [Point(s.x, s.y)], quad + piece, painted + piecePainted;
  }

  /** The counter updates of one pass of the first loop, after its plotting:
      `y` goes up by one and `x` down by one whenever the error term says so. */
  method HorizontalUpdate(s: ArcState, twoASquare: int, twoBSquare: int) returns (t: ArcState)
    ensures t == HorizontalStep(s, twoASquare, twoBSquare)
  {
    var x, y, xChange, yChange, ellipseError, stoppingX, stoppingY := s.x, s.y, s.xChange, s.yChange, s.err, s.stopX, s.stopY;
    y := y + 1;
    stoppingY := stoppingY + twoASquare;
    ellipseError := ellipseError + yChange;
    yChange := yChange + twoASquare;
    if 2 * ellipseError + xChange > 0 {
      x := x - 1;
      stoppingX := stoppingX - twoBSquare;
      ellipseError := ellipseError + xChange;
      xChange := xChange + twoBSquare;
    }
    t := ArcState(x, y, xChange, yChange, ellipseError, stoppingX, stoppingY);
  }

  /** The second loop of BresenhamEllipse, from `(0, ry)` while
      `stopping_x <= stopping_y`. It returns its last arc point. */
  method VerticalArc(img: array2<int>, c: Point, e: Point, rX: int, rY: int, fill: bool, color: int)
    returns (lastV: Point, ghost vs: seq<Point>, ghost quad: seq<Point>, ghost painted: seq<Point>)
    requires rX >= 0 && rY >= 0 && (rX > 0 || rY > 0)
    modifies img
    ensures VerticalRun(rX, rY, vs) && |vs| > 0 && lastV == vs[|vs| - 1]
    ensures quad == Spans(vs, fill, false)
    ensures painted == Mirrors(c, e, quad)
    ensures Painted(img, painted, color)
  {
    var twoASquare := 2 * rX * rX;
    var twoBSquare := 2 * rY * rY;
    Squares(rX);
    Squares(rY);
    var s := ArcState(0, rY, rY * rY, rX * rX * (1 - 2 * rY), 0, 0, twoASquare * rY);
    assert s == VerticalStart(rX, rY);
    if rY == 0 {
      FlatArcStops(rX);
    }
    lastV, vs, quad, painted := VerticalLoop(img, c, e, s, twoASquare, twoBSquare, fill, color);
  }

  /** The loop itself, from the state `s0` with the constants `2 rx^2` and
      `2 ry^2` of the second loop. */
  method VerticalLoop(img: array2<int>, c: Point, e: Point, s0: ArcState, twoASquare: int, twoBSquare: int, fill: bool, color: int)
    returns (lastV: Point, ghost vs: seq<Point>, ghost quad: seq<Point>, ghost painted: seq<Point>)
    requires twoASquare >= 0 && twoBSquare >= 0 && s0.stopX <= s0.stopY
    requires twoBSquare == 0 ==>
               VerticalPasses(s0, twoASquare, twoBSquare, 1).stopX > VerticalPasses(s0, twoASquare, twoBSquare, 1).stopY
    modifies img
    ensures VerticalPrefix(s0, twoASquare, twoBSquare, vs)
    ensures VerticalPasses(s0, twoASquare, twoBSquare, |vs|).stopX > VerticalPasses(s0, twoASquare, twoBSquare, |vs|).stopY
    ensures |vs| > 0 && lastV == vs[|vs| - 1]
    ensures quad == Spans(vs, fill, false)
    ensures painted == Mirrors(c, e, quad)
    ensures Painted(img, painted, color)
  {
    var s := s0;
    lastV := Point(0, 0);
    vs, quad, painted := [], [], [];
    PaintNothing(Pixels(img), color);

    while s.stopX <= s.stopY
      invariant s == VerticalPasses(s0, twoASquare, twoBSquare, |vs|)
      invariant VerticalPrefix(s0, twoASquare, twoBSquare, vs)
      invariant vs != [] ==> lastV == vs[|vs| - 1]
      invariant twoBSquare == 0 && vs != [] ==> s.stopX > s.stopY
      invariant quad == Spans(vs, fill, false)
      invariant painted == Mirrors(c, e, quad)
      invariant Painted(img, painted, color)
      decreases s.stopY - s.stopX
    {
      lastV := Point(s.x, s.y);
      s, vs, quad, painted := VerticalPass(img, c, e, s0, s, twoASquare, twoBSquare, fill, color,
                                           old(Pixels(img)), vs, quad, painted);
    }
  }

  /** One pass of the second loop: plot the arc point `(x, y)`, then let `x`
      go up by one and `y` down by one whenever the error term says so. */
  method VerticalPass(img: array2<int>, c: Point, e: Point, s0: ArcState, s: ArcState, twoASquare: int, twoBSquare: int,
                      fill: bool, color: int, ghost base: seq<seq<int>>, ghost vs: seq<Point>, ghost quad: seq<Point>,
                      ghost painted: seq<Point>)
    returns (t: ArcState, ghost vs': seq<Point>, ghost quad': seq<Point>, ghost painted': seq<Point>)
    requires twoASquare >= 0 && twoBSquare >= 0
    requires s == VerticalPasses(s0, twoASquare, twoBSquare, |vs|) && s.stopX <= s.stopY
    requires VerticalPrefix(s0, twoASquare, twoBSquare, vs)
    requires quad == Spans(vs, fill, false) && painted == Mirrors(c, e, quad)
    requires Pixels(img) == Paint(base, painted, color)
    modifies img
    ensures t == VerticalPasses(s0, twoASquare, twoBSquare, |vs'|) && vs' == vs + [Point(s.x, s.y)]
    ensures twoBSquare > 0 ==> t.stopY - t.stopX <= s.stopY - s.stopX - twoBSquare
    ensures VerticalPrefix(s0, twoASquare, twoBSquare, vs')
    ensures quad' == Spans(vs', fill, false) && painted' == Mirrors(c, e, quad')
    ensures Pixels(img) == Paint(base, painted', color)
  {
    ghost var piece, piecePainted := PlotVerticalArcPoint(img, c, Point(s.x, s.y), e, fill, color);
    VerticalPassStep(s0, s, twoASquare, twoBSquare, vs);
    SpansSnoc(c, e, vs, Point(s.x, s.y), fill, false);
    PaintTwice(base, painted, piecePainted, color);
    t := VerticalUpdate(s, twoASquare, twoBSquare);
    vs', quad', painted' := vs + [Point(s.x, s.y)], quad + piece, painted + piecePainted;
  }

  /** The counter updates of one pass of the second loop: `x` goes up by one
      and `y` down by one whenever the error term says so. */
  method VerticalUpdate(s: ArcState, twoASquare: int, twoBSquare: int) returns (t: ArcState)
    ensures t == VerticalStep(s, twoASquare, twoBSquare)
  {
    var x, y, xChange, yChange, ellipseError, stoppingX, stoppingY := s.x, s.y, s.xChange, s.yChange, s.err, s.stopX, s.stopY;
    x := x + 1;
    stoppingX := stoppingX + twoBSquare;
    ellipseError := ellipseError + xChange;
    xChange := xChange + twoBSquare;
    if 2 * ellipseError + yChange > 0 {
      y := y - 1;
      stoppingY := stoppingY - twoASquare;
      ellipseError := ellipseError + yChange;
      yChange := yChange + twoASquare;
    }
    t := ArcState(x, y, xChange, yChange, ellipseError, stoppingX, stoppingY);
  }

  /** The plotting step of the first loop: with `fill`, the span of points
      `(i, lastH.y)` for `0 <= i < lastH.x`, else `lastH` itself, each
      mirrored four ways into `painted`. */
  method PlotHorizontalArcPoint(img: array2<int>, c: Point, lastH: Point, e: Point, fill: bool, color: int)
    returns (ghost quad: seq<Point>, ghost painted: seq<Point>)
    modifies img
    ensures quad == Span(lastH, fill, true)
    ensures painted == Mirrors(c, e, quad)
    ensures Painted(img, painted, color)
  {
    if fill {
      quad, painted := [], [];
      PaintNothing(Pixels(img), color);
      var i := 0;
      while i < lastH.x
        invariant 0 <= i && (i <= lastH.x || i == 0)
        invariant quad == RowFill(Point(i, lastH.y))
        invariant painted == Mirrors(c, e, quad)
        invariant Painted(img, painted, color)
      {
        ghost var four := Plot4EllipsePoints(img, c, Point(i, lastH.y), e, color);
        MirrorsSnoc(c, e, quad, Point(i, lastH.y));
        PaintTwice(old(Pixels(img)), painted, four, color);
        quad, painted := quad + [Point(i, lastH.y)], painted + four;
        i := i + 1;
      }
      assert quad == RowFill(lastH);
    } else {
      painted := Plot4EllipsePoints(img, c, lastH, e, color);
      quad := [lastH];
      assert quad[..0] == [];
    }
  }

  /** The plotting step of the second loop: with `fill`, the span of points
      `(lastV.x, i)` for `0 <= i < lastV.y`, else `lastV` itself. */
  method PlotVerticalArcPoint(img: array2<int>, c: Point, lastV: Point, e: Point, fill: bool, color: int)
    returns (ghost quad: seq<Point>, ghost painted: seq<Point>)
    modifies img
    ensures quad == Span(lastV, fill, false)
    ensures painted == Mirrors(c, e, quad)
    ensures Painted(img, painted, color)
  {
    if fill {
      quad, painted := [], [];
      PaintNothing(Pixels(img), color);
      var i := 0;
      while i < lastV.y
        invariant 0 <= i && (i <= lastV.y || i == 0)
        invariant quad == ColumnFill(Point(lastV.x, i))
        invariant painted == Mirrors(c, e, quad)
        invariant Painted(img, painted, color)
      {
        ghost var four := Plot4EllipsePoints(img, c, Point(lastV.x, i), e, color);
        MirrorsSnoc(c, e, quad, Point(lastV.x, i));
        PaintTwice(old(Pixels(img)), painted, four, color);
        quad, painted := quad + [Point(lastV.x, i)], painted + four;
        i := i + 1;
      }
      assert quad == ColumnFill(lastV);
    } else {
      painted := Plot4EllipsePoints(img, c, lastV, e, color);
      quad := [lastV];
      assert quad[..0] == [];
    }
  }
}
