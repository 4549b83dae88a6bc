/** The point sequences the scan-conversion routines plot, as functions:
    the error-driven line walk shared by BresenhamLine and
    Bresenham4LinesEllipse, and the four-way mirroring of Plot4EllipsePoints. */
module Bresenham {
  import opened Geometry

  /** A point given by its major-axis and minor-axis coordinates. */
  function Plot(u: int, v: int, xMajor: bool): Point
  {
    if xMajor then Point(u, v) else Point(v, u)
  }

  /** The points a Bresenham loop plots after its first one. `u` is the
      coordinate on the major axis, stepped by `iu` until it equals `u2`;
      the minor coordinate `v` moves by `iv` whenever the error term says so.
      `du` and `dv` are the doubled absolute distances. */
  function Walk(u: int, v: int, err: int, u2: int, iu: int, iv: int, du: int, dv: int, xMajor: bool): seq<Point>
    requires u == u2 || iu == Sign(u2 - u)
    decreases Abs(u2 - u)
  {
    if u == u2 then []
    else
      var minor := err >= 0 && (err != 0 || iu > 0);
      var v' := if minor then v + iv else v;
      var err' := (if minor then err - du else err) + dv;
      [Plot(u + iu, v', xMajor)] + Walk(u + iu, v', err', u2, iu, iv, du, dv, xMajor)
  }

  /** The loop of a Bresenham routine from `(u1, v1)` to `(u2, v2)` along the
      major axis `u`: `delta_u` and `delta_v` are the doubled distances and the
      error term starts at `delta_v - delta_u / 2`. */
  function MajorWalk(u1: int, v1: int, u2: int, v2: int, xMajor: bool): seq<Point>
  {
    var du: int, dv: int := 2 * Abs(u2 - u1), 2 * Abs(v2 - v1);
    Walk(u1, v1, dv - du / 2, u2, Sign(u2 - u1), Sign(v2 - v1), du, dv, xMajor)
  }

  /** One step of a walk that has not arrived yet: the points still to come
      are the next point followed by the walk from there. */
  lemma WalkUnfold(done: seq<Point>, u: int, v: int, err: int, u2: int, iu: int, iv: int, du: int, dv: int,
                   xMajor: bool, v': int, err': int)
    requires u != u2 && iu == Sign(u2 - u)
    requires v' == if err >= 0 && (err != 0 || iu > 0) then v + iv else v
    requires err' == (if err >= 0 && (err != 0 || iu > 0) then err - du else err) + dv
    ensures u + iu == u2 || iu == Sign(u2 - (u + iu))
    ensures Abs(u2 - (u + iu)) < Abs(u2 - u)
    ensures done + Walk(u, v, err, u2, iu, iv, du, dv, xMajor) ==
            (done + [Plot(u + iu, v', xMajor)]) + Walk(u + iu, v', err', u2, iu, iv, du, dv, xMajor)
  {
  }

  /** Every point BresenhamLine plots from `p1` to `p2`, in order. */
  function LinePoints(p1: Point, p2: Point): seq<Point>
  {
    [p1] +
    if 2 * Abs(p2.x - p1.x) >= 2 * Abs(p2.y - p1.y) then MajorWalk(p1.x, p1.y, p2.x, p2.y, true)
    else MajorWalk(p1.y, p1.x, p2.y, p2.x, false)
  }

  /** LinePoints by orientation, with MajorWalk spelled out for the given
      doubled distances `du`, `dv` and directions `iu`, `iv` of `p1 -> p2`. */
  lemma LinePointsIs(p1: Point, p2: Point, du: int, dv: int, iu: int, iv: int)
    requires du == 2 * Abs(p2.x - p1.x) && dv == 2 * Abs(p2.y - p1.y)
    requires iu == Sign(p2.x - p1.x) && iv == Sign(p2.y - p1.y)
    ensures du >= dv ==> LinePoints(p1, p2) == [p1] + Walk(p1.x, p1.y, dv - du / 2, p2.x, iu, iv, du, dv, true)
    ensures du < dv ==> LinePoints(p1, p2) == [p1] + Walk(p1.y, p1.x, du - dv / 2, p2.y, iv, iu, dv, du, false)
  {
  }

  lemma {:induction false} WalkLength(u: int, v: int, err: int, u2: int, iu: int, iv: int, du: int, dv: int, xMajor: bool)
    requires u == u2 || iu == Sign(u2 - u)
    ensures |Walk(u, v, err, u2, iu, iv, du, dv, xMajor)| == Abs(u2 - u)
    decreases Abs(u2 - u)
  {
    if u != u2 {
      var minor := err >= 0 && (err != 0 || iu > 0);
      var v' := if minor then v + iv else v;
      var err' := (if minor then err - du else err) + dv;
      WalkLength(u + iu, v', err', u2, iu, iv, du, dv, xMajor);
    }
  }

  /** With `a > 0`, the only multiple `2 a s` within `[-a, a]` is zero. */
  lemma OnlyZeroFits(a: int, s: int)
    requires a > 0 && -a <= 2 * a * s <= a
    ensures s == 0
  {
  }

  /** One step of the error term keeps WalkReaches's invariant: when the
      minor coordinate moves, one unit less of minor distance is left. */
  lemma ErrorStep(a: int, b: int, s: int, r: int, err: int, minor: bool)
    requires 0 <= b <= a
    requires err == 2 * b - a + 2 * a * s - 2 * b * r
    requires 2 * b - 2 * a <= err <= 2 * b
    requires minor ==> err >= 0
    requires !minor ==> err <= 0
    ensures var s', err' := (if minor then s - 1 else s), (if minor then err - 2 * a else err) + 2 * b;
            err' == 2 * b - a + 2 * a * s' - 2 * b * (r - 1) && 2 * b - 2 * a <= err' <= 2 * b
  {
    assert 2 * a * (s - 1) == 2 * a * s - 2 * a;
    assert 2 * b * (r - 1) == 2 * b * r - 2 * b;
  }

  /** The walk ends on the target. `a` and `b` are the undoubled major and
      minor distances of the whole line, `s` the minor distance still to go;
      the error term stays within `[2b - 2a, 2b]` and ties `s` to the major
      distance still to go, so once the major coordinate arrives the minor
      one has arrived too. */
  lemma {:induction false} WalkReaches(u: int, v: int, err: int, u2: int, v2: int, iu: int, iv: int,
                                       a: int, b: int, s: int, r: int, xMajor: bool)
    requires u == u2 || iu == Sign(u2 - u)
    requires 0 <= b <= a && 0 < a && -1 <= iv <= 1
    requires v2 - v == iv * s && r == Abs(u2 - u)
    requires err == 2 * b - a + 2 * a * s - 2 * b * r
    requires 2 * b - 2 * a <= err <= 2 * b
    ensures var w := Walk(u, v, err, u2, iu, iv, 2 * a, 2 * b, xMajor);
            (w == [] ==> v == v2) && (w != [] ==> w[|w| - 1] == Plot(u2, v2, xMajor))
    decreases Abs(u2 - u)
  {
    if u == u2 {
      OnlyZeroFits(a, s);
    } else {
      var minor := err >= 0 && (err != 0 || iu > 0);
      var v' := if minor then v + iv else v;
      var err' := (if minor then err - 2 * a else err) + 2 * b;
      var s' := if minor then s - 1 else s;
      ErrorStep(a, b, s, r, err, minor);
      assert Abs(u2 - (u + iu)) == r - 1;
      assert v2 - v' == iv * s' by {
        if minor { assert iv * (s - 1) == iv * s - iv; }
      }
      WalkReaches(u + iu, v', err', u2, v2, iu, iv, a, b, s', r - 1, xMajor);
      var rest := Walk(u + iu, v', err', u2, iu, iv, 2 * a, 2 * b, xMajor);
      var w := Walk(u, v, err, u2, iu, iv, 2 * a, 2 * b, xMajor);
      assert w == [Plot(u + iu, v', xMajor)] + rest;
      if rest == [] {
        assert u + iu == u2;
      } else {
        assert w[|w| - 1] == rest[|rest| - 1];
      }
    }
  }

  /** One step of a walk: the major coordinate moves by exactly `iu`, the
      minor one by `iv` or not at all. */
  predicate Step(p: Point, q: Point, iu: int, iv: int, xMajor: bool)
  {
    if xMajor then q.x == p.x + iu && (q.y == p.y || q.y == p.y + iv)
    else q.y == p.y + iu && (q.x == p.x || q.x == p.x + iv)
  }

  predicate Steps(s: seq<Point>, iu: int, iv: int, xMajor: bool)
  {
    forall i :: 0 <= i < |s| - 1 ==> Step(s[i], s[i + 1], iu, iv, xMajor)
  }

  lemma {:induction false} WalkSteps(u: int, v: int, err: int, u2: int, iu: int, iv: int, du: int, dv: int, xMajor: bool)
    requires u == u2 || iu == Sign(u2 - u)
    ensures Steps([Plot(u, v, xMajor)] + Walk(u, v, err, u2, iu, iv, du, dv, xMajor), iu, iv, xMajor)
    decreases Abs(u2 - u)
  {
    if u != u2 {
      var minor := err >= 0 && (err != 0 || iu > 0);
      var v' := if minor then v + iv else v;
      var err' := (if minor then err - du else err) + dv;
      WalkSteps(u + iu, v', err', u2, iu, iv, du, dv, xMajor);
      var rest := [Plot(u + iu, v', xMajor)] + Walk(u + iu, v', err', u2, iu, iv, du, dv, xMajor);
      var s := [Plot(u, v, xMajor)] + Walk(u, v, err, u2, iu, iv, du, dv, xMajor);
      assert s == [Plot(u, v, xMajor)] + rest;
      forall i | 0 <= i < |s| - 1 ensures Step(s[i], s[i + 1], iu, iv, xMajor) {
        if i > 0 {
          assert s[i] == rest[i - 1] && s[i + 1] == rest[i];
        } else {
          assert s[1] == Plot(u + iu, v', xMajor);
        }
      }
    }
  }

  /** BresenhamLine plots `p1` first and `p2` last, one point per unit of the
      longer axis plus one. */
  lemma LineEndpoints(p1: Point, p2: Point)
    ensures |LinePoints(p1, p2)| == Max(Abs(p2.x - p1.x), Abs(p2.y - p1.y)) + 1
    ensures LinePoints(p1, p2)[0] == p1
    ensures LinePoints(p1, p2)[|LinePoints(p1, p2)| - 1] == p2
  {
    if Abs(p2.x - p1.x) >= Abs(p2.y - p1.y) {
      MajorWalkEnds(p1.x, p1.y, p2.x, p2.y, true);
      assert Plot(p2.x, p2.y, true) == p2;
    } else {
      MajorWalkEnds(p1.y, p1.x, p2.y, p2.x, false);
      assert Plot(p2.y, p2.x, false) == p2;
    }
  }

  /** The error term's first value `delta_v - delta_u / 2`, with the whole
      line still to go (`s = b` and `r = a`), satisfies WalkReaches's
      invariant and lies in its range. */
  lemma StartErrorInRange(a: int, b: int)
    requires 0 <= b <= a
    ensures var err := 2 * b - a;
            err == 2 * b - a + 2 * a * b - 2 * b * a && 2 * b - 2 * a <= err <= 2 * b
  {
  }

  /** The walk of a line from `(u1, v1)` to `(u2, v2)` whose major axis is `u`
      has one point per unit of that axis and ends at `(u2, v2)`. */
  lemma MajorWalkEnds(u1: int, v1: int, u2: int, v2: int, xMajor: bool)
    requires Abs(u2 - u1) >= Abs(v2 - v1)
    ensures var w := MajorWalk(u1, v1, u2, v2, xMajor);
            |w| == Abs(u2 - u1) && (w == [] ==> v1 == v2) && (w != [] ==> w[|w| - 1] == Plot(u2, v2, xMajor))
  {
    var a: int, b: int := Abs(u2 - u1), Abs(v2 - v1);
    var iu, iv := Sign(u2 - u1), Sign(v2 - v1);
    assert 2 * a / 2 == a;
    WalkLength(u1, v1, 2 * b - a, u2, iu, iv, 2 * a, 2 * b, xMajor);
    if a > 0 {
      assert v2 - v1 == iv * b;
      StartErrorInRange(a, b);
      WalkReaches(u1, v1, 2 * b - a, u2, v2, iu, iv, a, b, b, a, xMajor);
    }
  }

  /** BresenhamLine's stepping rule: each plotted point advances the longer
      axis by one unit towards `p2` and the shorter axis by at most one unit,
      never away from `p2`. */
  lemma LineSteps(p1: Point, p2: Point)
    ensures Abs(p2.x - p1.x) >= Abs(p2.y - p1.y) ==>
              Steps(LinePoints(p1, p2), Sign(p2.x - p1.x), Sign(p2.y - p1.y), true)
    ensures Abs(p2.x - p1.x) < Abs(p2.y - p1.y) ==>
              Steps(LinePoints(p1, p2), Sign(p2.y - p1.y), Sign(p2.x - p1.x), false)
  {
    var ix, iy := Sign(p2.x - p1.x), Sign(p2.y - p1.y);
    var dx: int, dy: int := 2 * Abs(p2.x - p1.x), 2 * Abs(p2.y - p1.y);
    if dx >= dy {
      assert Plot(p1.x, p1.y, true) == p1;
      WalkSteps(p1.x, p1.y, dy - dx / 2, p2.x, ix, iy, dx, dy, true);
    } else {
      assert Plot(p1.y, p1.x, false) == p1;
      WalkSteps(p1.y, p1.x, dx - dy / 2, p2.y, iy, ix, dy, dx, false);
    }
  }

  /** Plot4EllipsePoints: `c + p`, `c - p + e` and the two mixed corners. */
  function Plot4Points(c: Point, p: Point, e: Point): seq<Point>
  {
    var p1 := c.Plus(p);
    var p2 := c.Minus(p).Plus(e);
    [p1, p2, Point(p1.x, p2.y), Point(p2.x, p1.y)]
  }

  /** The points plotted by Plot4EllipsePoints for each of `pts`, in order. */
  function Mirrors(c: Point, e: Point, pts: seq<Point>): seq<Point>
  {
    if pts == [] then [] else Mirrors(c, e, pts[..|pts| - 1]) + Plot4Points(c, pts[|pts| - 1], e)
  }

  /** Mirroring a concatenation mirrors each part in turn. */
  lemma {:induction false} MirrorsAppend(c: Point, e: Point, a: seq<Point>, b: seq<Point>)
    ensures Mirrors(c, e, a + b) == Mirrors(c, e, a) + Mirrors(c, e, b)
    decreases |b|
  {
    if b != [] {
      var init := b[..|b| - 1];
      assert (a + b)[..|a + b| - 1] == a + init;
      assert (a + b)[|a + b| - 1] == b[|b| - 1];
      MirrorsAppend(c, e, a, init);
      var last := Plot4Points(c, b[|b| - 1], e);
      calc {
        Mirrors(c, e, a + b);
        Mirrors(c, e, a + init) + last;
        (Mirrors(c, e, a) + Mirrors(c, e, init)) + last;
        Mirrors(c, e, a) + (Mirrors(c, e, init) + last);
      }
    } else {
      assert a + b == a;
    }
  }

  /** The span BresenhamEllipse fills for an arc point `p` of its first loop:
      the points `(i, p.y)` for `0 <= i < p.x`, in increasing `i`. */
  function RowFill(p: Point): seq<Point>
    decreases p.x
  {
    if p.x <= 0 then [] else RowFill(Point(p.x - 1, p.y)) + [Point(p.x - 1, p.y)]
  }

  /** The span filled for an arc point `p` of the second loop: the points
      `(p.x, i)` for `0 <= i < p.y`, in increasing `i`. */
  function ColumnFill(p: Point): seq<Point>
    decreases p.y
  {
    if p.y <= 0 then [] else ColumnFill(Point(p.x, p.y - 1)) + [Point(p.x, p.y - 1)]
  }

  lemma MirrorsSnoc(c: Point, e: Point, pts: seq<Point>, p: Point)
    ensures Mirrors(c, e, pts + [p]) == Mirrors(c, e, pts) + Plot4Points(c, p, e)
  {
    assert (pts + [p])[..|pts|] == pts;
  }

  /** The quadrant points one pass of a loop of BresenhamEllipse hands to
      Plot4EllipsePoints for the arc point `p`: the point itself when drawing
      an outline, its row (first loop) or column (second loop) span when
      filling. */
  function Span(p: Point, fill: bool, rows: bool): seq<Point>
  {
    if !fill then [p] else if rows then RowFill(p) else ColumnFill(p)
  }

  /** The quadrant points a loop hands to Plot4EllipsePoints for the arc
      points `arc`, pass after pass. */
  function Spans(arc: seq<Point>, fill: bool, rows: bool): seq<Point>
  {
    if arc == [] then [] else Spans(arc[..|arc| - 1], fill, rows) + Span(arc[|arc| - 1], fill, rows)
  }

  /** One more pass of a loop: its span follows the earlier ones, and so do
      their mirror images. */
  lemma SpansSnoc(c: Point, e: Point, arc: seq<Point>, p: Point, fill: bool, rows: bool)
    ensures Spans(arc + [p], fill, rows) == Spans(arc, fill, rows) + Span(p, fill, rows)
    ensures Mirrors(c, e, Spans(arc + [p], fill, rows)) ==
            Mirrors(c, e, Spans(arc, fill, rows)) + Mirrors(c, e, Span(p, fill, rows))
  {
    assert (arc + [p])[..|arc|] == arc;
    MirrorsAppend(c, e, Spans(arc, fill, rows), Span(p, fill, rows));
  }

  /** An outline's spans are its arc points. */
  lemma {:induction false} OutlineSpans(arc: seq<Point>, rows: bool)
    ensures Spans(arc, false, rows) == arc
  {
    if arc != [] {
      OutlineSpans(arc[..|arc| - 1], rows);
    }
  }

  /** Reflections in the vertical and horizontal axes through `c + e / 2`. */
  function ReflectX(q: Point, c: Point, e: Point): Point { Point(2 * c.x + e.x - q.x, q.y) }
  function ReflectY(q: Point, c: Point, e: Point): Point { Point(q.x, 2 * c.y + e.y - q.y) }

  /** Whatever the plotted quadrant points, the mirrored figure is symmetric
      in both axes. */
  lemma {:induction false} MirrorsSymmetric(c: Point, e: Point, pts: seq<Point>)
    ensures forall q :: q in Mirrors(c, e, pts) ==>
              ReflectX(q, c, e) in Mirrors(c, e, pts) && ReflectY(q, c, e) in Mirrors(c, e, pts)
  {
    if pts != [] {
      var init := pts[..|pts| - 1];
      MirrorsSymmetric(c, e, init);
      var four := Plot4Points(c, pts[|pts| - 1], e);
      assert Mirrors(c, e, pts) == Mirrors(c, e, init) + four;
      forall q | q in four ensures ReflectX(q, c, e) in four && ReflectY(q, c, e) in four {
      }
    }
  }

  lemma {:induction false} InMirrors(c: Point, e: Point, pts: seq<Point>, q: Point)
    ensures q in Mirrors(c, e, pts) <==> exists i :: 0 <= i < |pts| && q in Plot4Points(c, pts[i], e)
  {
    if pts != [] {
      var init := pts[..|pts| - 1];
      InMirrors(c, e, init, q);
      if q in Plot4Points(c, pts[|pts| - 1], e) {
        assert q in Mirrors(c, e, pts);
      }
      if q in Mirrors(c, e, pts) && q !in Plot4Points(c, pts[|pts| - 1], e) {
        var i :| 0 <= i < |init| && q in Plot4Points(c, init[i], e);
        assert pts[i] == init[i];
      }
      if exists i :: 0 <= i < |pts| && q in Plot4Points(c, pts[i], e) {
        var i :| 0 <= i < |pts| && q in Plot4Points(c, pts[i], e);
        if i < |init| { assert init[i] == pts[i]; }
      }
    }
  }

  /** The parity offset `e` of BresenhamEllipse: one for an even side. */
  function Parity(r: Rect): Point
    requires r.IsValid()
  {
    Point(1 - r.width % 2, 1 - r.height % 2)
  }

  /** The mirror images of a point of the quadrant box `[0, w/2] x [0, h/2]`
      lie inside the rectangle, and reflecting in the axes through
      `Center(r) + e / 2` maps the rectangle onto itself; both hold when the
      centre is computed without negative truncation. */
  lemma Plot4InsideRect(r: Rect, p: Point)
    requires r.IsValid() && r.left + r.Right() >= 0 && r.top + r.Bottom() >= 0
    requires 0 <= p.x <= r.width / 2 && 0 <= p.y <= r.height / 2
    ensures 2 * Center(r).x + Parity(r).x == r.left + r.Right()
    ensures 2 * Center(r).y + Parity(r).y == r.top + r.Bottom()
    ensures forall q :: q in Plot4Points(Center(r), p, Parity(r)) ==> r.Contains(q)
  {
    AxisInside(r.left, r.width, p.x);
    AxisInside(r.top, r.height, p.y);
  }

  /** One axis of Plot4InsideRect: a side starting at `lo` of length `size`,
      its truncated midpoint `m` and parity `e`, and an offset `d` of at most
      half the side. */
  lemma AxisInside(lo: int, size: int, d: int)
    requires size > 0 && 2 * lo + size - 1 >= 0 && 0 <= d <= size / 2
    ensures var m, e := Half(lo + (lo + size - 1)), 1 - size % 2;
            2 * m + e == 2 * lo + size - 1 &&
            lo <= m + d <= lo + size - 1 && lo <= m - d + e <= lo + size - 1
  {
    var k := size / 2;
    assert size == 2 * k + size % 2;
    var m := Half(lo + (lo + size - 1));
    if size % 2 == 1 {
      assert m == lo + k;
    } else {
      assert m == lo + k - 1;
    }
  }

  /** The test BresenhamEllipse makes before joining its two arcs: the points
      are not 8-adjacent or equal. */
  predicate Apart(p: Point, q: Point)
  {
    Abs(p.x - q.x) > 1 || Abs(p.y - q.y) > 1
  }

  /** The variables of BresenhamEllipse's loops (View/logic/tool_algorithm.cpp:117-125). */
  datatype ArcState = ArcState(x: int, y: int, xChange: int, yChange: int, err: int, stopX: int, stopY: int)

  /** The state of the first loop on entry. */
  function HorizontalStart(rx: int, ry: int): ArcState
  {
    ArcState(rx, 0, ry * ry * (1 - 2 * rx), rx * rx, 0, 2 * ry * ry * rx, 0)
  }

  /** One pass of the first loop's body after the plotting, where `twoA` and
      `twoB` are the loop's constants `2 rx^2` and `2 ry^2`. */
  function HorizontalStep(s: ArcState, twoA: int, twoB: int): ArcState
  {
    var t := s.(y := s.y + 1, stopY := s.stopY + twoA, err := s.err + s.yChange, yChange := s.yChange + twoA);
    if 2 * t.err + t.xChange > 0 then
      t.(x := t.x - 1, stopX := t.stopX - twoB, err := t.err + t.xChange, xChange := t.xChange + twoB)
    else t
  }

  function HorizontalPasses(s0: ArcState, twoA: int, twoB: int, n: nat): ArcState
  {
    if n == 0 then s0 else HorizontalStep(HorizontalPasses(s0, twoA, twoB, n - 1), twoA, twoB)
  }

  /** The first loop's state after `n` passes. */
  function HorizontalAfter(rx: int, ry: int, n: nat): ArcState
  {
    HorizontalPasses(HorizontalStart(rx, ry), 2 * rx * rx, 2 * ry * ry, n)
  }

  /** The state of the second loop on entry. */
  function VerticalStart(rx: int, ry: int): ArcState
  {
    ArcState(0, ry, ry * ry, rx * rx * (1 - 2 * ry), 0, 0, 2 * rx * rx * ry)
  }

  /** One pass of the second loop's body after the plotting. */
  function VerticalStep(s: ArcState, twoA: int, twoB: int): ArcState
  {
    var t := s.(x := s.x + 1, stopX := s.stopX + twoB, err := s.err + s.xChange, xChange := s.xChange + twoB);
    if 2 * t.err + t.yChange > 0 then
      t.(y := t.y - 1, stopY := t.stopY - twoA, err := t.err + t.yChange, yChange := t.yChange + twoA)
    else t
  }

  function VerticalPasses(s0: ArcState, twoA: int, twoB: int, n: nat): ArcState
  {
    if n == 0 then s0 else VerticalStep(VerticalPasses(s0, twoA, twoB, n - 1), twoA, twoB)
  }

  /** The second loop's state after `n` passes. */
  function VerticalAfter(rx: int, ry: int, n: nat): ArcState
  {
    VerticalPasses(VerticalStart(rx, ry), 2 * rx * rx, 2 * ry * ry, n)
  }

  /** The arc point a loop plots in a given state. */
  function At(s: ArcState): Point { Point(s.x, s.y) }

  /** For a 1 x 1 rectangle both radii are zero, and the first loop of
      BresenhamEllipse as written never stops: after any number of passes its
      guard `stopping_x >= stopping_y` still holds and `y` has grown by one
      per pass. */
  lemma {:induction false} UnitEllipseNeverStops(n: nat)
    ensures var s := HorizontalAfter(0, 0, n);
            s.stopX >= s.stopY && s == ArcState(0, n, 0, 0, 0, 0, 0)
  {
    if n > 0 {
      UnitEllipseNeverStops(n - 1);
    }
  }

  /** `arc` lists the points the first loop plots in its first `|arc|`
      passes from `s0`, each made while its guard `stopping_x >= stopping_y`
      held. */
  ghost predicate HorizontalPrefix(s0: ArcState, twoA: int, twoB: int, arc: seq<Point>)
  {
    forall i {:trigger arc[i]} :: 0 <= i < |arc| ==>
      var s := HorizontalPasses(s0, twoA, twoB, i); arc[i] == At(s) && s.stopX >= s.stopY
  }

  /** `arc` lists exactly the points the first loop of BresenhamEllipse
      plots for radii `rx` and `ry`: after them the guard fails. */
  ghost predicate HorizontalRun(rx: int, ry: int, arc: seq<Point>)
  {
    HorizontalPrefix(HorizontalStart(rx, ry), 2 * rx * rx, 2 * ry * ry, arc) &&
    HorizontalAfter(rx, ry, |arc|).stopX < HorizontalAfter(rx, ry, |arc|).stopY
  }

  /** The same for the second loop, whose guard is `stopping_x <= stopping_y`. */
  ghost predicate VerticalPrefix(s0: ArcState, twoA: int, twoB: int, arc: seq<Point>)
  {
    forall i {:trigger arc[i]} :: 0 <= i < |arc| ==>
      var s := VerticalPasses(s0, twoA, twoB, i); arc[i] == At(s) && s.stopX <= s.stopY
  }

  ghost predicate VerticalRun(rx: int, ry: int, arc: seq<Point>)
  {
    VerticalPrefix(VerticalStart(rx, ry), 2 * rx * rx, 2 * ry * ry, arc) &&
    VerticalAfter(rx, ry, |arc|).stopX > VerticalAfter(rx, ry, |arc|).stopY
  }

  /** A pass made while the guard holds extends the first loop's points by
      the point of the current state. */
  lemma HorizontalPrefixSnoc(s0: ArcState, twoA: int, twoB: int, arc: seq<Point>)
    requires HorizontalPrefix(s0, twoA, twoB, arc)
    requires HorizontalPasses(s0, twoA, twoB, |arc|).stopX >= HorizontalPasses(s0, twoA, twoB, |arc|).stopY
    ensures HorizontalPrefix(s0, twoA, twoB, arc + [At(HorizontalPasses(s0, twoA, twoB, |arc|))])
  {
    var arc' := arc + [At(HorizontalPasses(s0, twoA, twoB, |arc|))];
    forall i | 0 <= i < |arc'|
      ensures var s := HorizontalPasses(s0, twoA, twoB, i); arc'[i] == At(s) && s.stopX >= s.stopY
    {
      if i < |arc| {
        assert arc'[i] == arc[i];
      }
    }
  }

  lemma VerticalPrefixSnoc(s0: ArcState, twoA: int, twoB: int, arc: seq<Point>)
    requires VerticalPrefix(s0, twoA, twoB, arc)
    requires VerticalPasses(s0, twoA, twoB, |arc|).stopX <= VerticalPasses(s0, twoA, twoB, |arc|).stopY
    ensures VerticalPrefix(s0, twoA, twoB, arc + [At(VerticalPasses(s0, twoA, twoB, |arc|))])
  {
    var arc' := arc + [At(VerticalPasses(s0, twoA, twoB, |arc|))];
    forall i | 0 <= i < |arc'|
      ensures var s := VerticalPasses(s0, twoA, twoB, i); arc'[i] == At(s) && s.stopX <= s.stopY
    {
      if i < |arc| {
        assert arc'[i] == arc[i];
      }
    }
  }

  /** A pass of the first loop made while its guard holds: the next state
      is the state after one more pass, the arc grows by the current point,
      and with a positive `2 rx^2` the guard's margin shrinks by that much. */
  lemma HorizontalPassStep(s0: ArcState, s: ArcState, twoA: int, twoB: int, arc: seq<Point>)
    requires twoA >= 0 && twoB >= 0
    requires s == HorizontalPasses(s0, twoA, twoB, |arc|) && s.stopX >= s.stopY
    requires HorizontalPrefix(s0, twoA, twoB, arc)
    ensures var t := HorizontalStep(s, twoA, twoB);
            t == HorizontalPasses(s0, twoA, twoB, |arc| + 1) &&
            (twoA > 0 ==> t.stopX - t.stopY <= s.stopX - s.stopY - twoA) &&
            HorizontalPrefix(s0, twoA, twoB, arc + [At(s)])
  {
    if twoA > 0 {
      HorizontalProgress(s, twoA, twoB);
    }
    HorizontalPrefixSnoc(s0, twoA, twoB, arc);
  }

  /** The same for the second loop. */
  lemma VerticalPassStep(s0: ArcState, s: ArcState, twoA: int, twoB: int, arc: seq<Point>)
    requires twoA >= 0 && twoB >= 0
    requires s == VerticalPasses(s0, twoA, twoB, |arc|) && s.stopX <= s.stopY
    requires VerticalPrefix(s0, twoA, twoB, arc)
    ensures var t := VerticalStep(s, twoA, twoB);
            t == VerticalPasses(s0, twoA, twoB, |arc| + 1) &&
            (twoB > 0 ==> t.stopY - t.stopX <= s.stopY - s.stopX - twoB) &&
            VerticalPrefix(s0, twoA, twoB, arc + [At(s)])
  {
    if twoB > 0 {
      VerticalProgress(s, twoA, twoB);
    }
    VerticalPrefixSnoc(s0, twoA, twoB, arc);
  }

  /** With a positive `2 rx^2` every pass of the first loop brings
      `stopping_x - stopping_y` down by at least that much. */
  lemma HorizontalProgress(s: ArcState, twoA: int, twoB: int)
    requires twoA > 0 && twoB >= 0
    ensures HorizontalStep(s, twoA, twoB).stopX - HorizontalStep(s, twoA, twoB).stopY <= s.stopX - s.stopY - twoA
  {
  }

  /** With a positive `2 ry^2` every pass of the second loop brings
      `stopping_y - stopping_x` down by at least that much. */
  lemma VerticalProgress(s: ArcState, twoA: int, twoB: int)
    requires twoB > 0 && twoA >= 0
    ensures VerticalStep(s, twoA, twoB).stopY - VerticalStep(s, twoA, twoB).stopX <= s.stopY - s.stopX - twoB
  {
  }

  /** A radius squared, as in `2 * r_x * r_x`, is never negative and is zero
      only for a zero radius. It is stated once here so that the loops' own
      proofs carry no nonlinear arithmetic. */
  lemma Squares(r: int)
    ensures r * r >= 0 && (r != 0 ==> r * r > 0)
  {
  }

  /** A rectangle one pixel wide: the first loop stops after one pass. */
  lemma NarrowArcStops(ry: int)
    requires ry > 0
    ensures HorizontalAfter(0, ry, 1).stopX < HorizontalAfter(0, ry, 1).stopY
  {
    Squares(ry);
    assert HorizontalAfter(0, ry, 0) == ArcState(0, 0, ry * ry, 0, 0, 0, 0);
  }

  /** A rectangle one pixel high: the second loop stops after one pass. */
  lemma FlatArcStops(rx: int)
    requires rx > 0
    ensures VerticalAfter(rx, 0, 1).stopX > VerticalAfter(rx, 0, 1).stopY
  {
    Squares(rx);
    assert VerticalAfter(rx, 0, 0) == ArcState(0, 0, 0, rx * rx, 0, 0, 0);
  }

  /** The first loop's arc starts at `(rx, 0)` and climbs one row per point,
      moving left by at most one column: an 8-connected arc. */
  lemma HorizontalRunSteps(rx: int, ry: int, arc: seq<Point>)
    requires HorizontalRun(rx, ry, arc) && |arc| > 0
    ensures arc[0] == Point(rx, 0)
    ensures forall i :: 0 <= i < |arc| - 1 ==>
              arc[i + 1].y == arc[i].y + 1 && arc[i].x - 1 <= arc[i + 1].x <= arc[i].x
  {
    var s0, twoA, twoB := HorizontalStart(rx, ry), 2 * rx * rx, 2 * ry * ry;
    assert arc[0] == At(HorizontalPasses(s0, twoA, twoB, 0));
    forall i | 0 <= i < |arc| - 1
      ensures arc[i + 1].y == arc[i].y + 1 && arc[i].x - 1 <= arc[i + 1].x <= arc[i].x
    {
      assert arc[i] == At(HorizontalPasses(s0, twoA, twoB, i));
      assert arc[i + 1] == At(HorizontalPasses(s0, twoA, twoB, i + 1));
    }
  }

  /** The second loop's arc starts at `(0, ry)` and moves one column right
      per point, down by at most one row. */
  lemma VerticalRunSteps(rx: int, ry: int, arc: seq<Point>)
    requires VerticalRun(rx, ry, arc) && |arc| > 0
    ensures arc[0] == Point(0, ry)
    ensures forall i :: 0 <= i < |arc| - 1 ==>
              arc[i + 1].x == arc[i].x + 1 && arc[i].y - 1 <= arc[i + 1].y <= arc[i].y
  {
    var s0, twoA, twoB := VerticalStart(rx, ry), 2 * rx * rx, 2 * ry * ry;
    assert arc[0] == At(VerticalPasses(s0, twoA, twoB, 0));
    forall i | 0 <= i < |arc| - 1
      ensures arc[i + 1].x == arc[i].x + 1 && arc[i].y - 1 <= arc[i + 1].y <= arc[i].y
    {
      assert arc[i] == At(VerticalPasses(s0, twoA, twoB, i));
      assert arc[i + 1] == At(VerticalPasses(s0, twoA, twoB, i + 1));
    }
  }

  /** What BresenhamEllipse hands to Plot4EllipsePoints for radii `rx` and
      `ry`: the first loop's arc `hs`, the second loop's arc `vs` (each a
      single pass at the centre when both radii are zero), spans towards the
      axes instead of single points when filling, and the joining line
      exactly when the arcs end apart. */
  ghost predicate EllipseTrace(rx: int, ry: int, fill: bool, hs: seq<Point>, vs: seq<Point>, bridged: bool, quad: seq<Point>)
  {
    |hs| > 0 && |vs| > 0 &&
    (rx > 0 || ry > 0 ==> HorizontalRun(rx, ry, hs) && VerticalRun(rx, ry, vs)) &&
    (rx == 0 && ry == 0 ==> hs == [Point(0, 0)] && vs == [Point(0, 0)]) &&
    (bridged <==> Apart(hs[|hs| - 1], vs[|vs| - 1])) &&
    quad == Spans(hs, fill, true) + Spans(vs, fill, false) +
            (if bridged then LinePoints(hs[|hs| - 1], vs[|vs| - 1]) else [])
  }

  /** Consequently no finite list of points is a run of the first loop for a
      1 x 1 rectangle. */
  lemma UnitEllipseHasNoRun(arc: seq<Point>)
    ensures !HorizontalRun(0, 0, arc)
  {
    UnitEllipseNeverStops(|arc|);
  }

  /** What a 1 x 1 outline should be, and is with the single pass EllipseFrom
      makes for zero radii: the rectangle's one pixel and nothing else. */
  lemma UnitEllipseIsItsPixel(r: Rect, hs: seq<Point>, vs: seq<Point>, bridged: bool, quad: seq<Point>)
    requires r.width == 1 && r.height == 1
    requires EllipseTrace(0, 0, false, hs, vs, bridged, quad)
    ensures forall q :: q in Mirrors(Center(r), Parity(r), quad) <==> q == Point(r.left, r.top)
  {
    var c, e := Center(r), Parity(r);
    assert c == Point(r.left, r.top) && e == Point(0, 0);
    assert !bridged;
    OutlineSpans(hs, true);
    OutlineSpans(vs, false);
    assert quad == [Point(0, 0), Point(0, 0)];
    MirrorsSnoc(c, e, [Point(0, 0)], Point(0, 0));
    MirrorsSnoc(c, e, [], Point(0, 0));
    assert [] + [Point(0, 0)] == [Point(0, 0)];
    assert Mirrors(c, e, quad) == [c, c, c, c, c, c, c, c];
  }
}
