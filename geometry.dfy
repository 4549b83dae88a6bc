/** Integer points and Qt-style rectangles, with the arithmetic the editor's C++ code relies on. */
module Geometry {

  /** A QPoint. */
  datatype Point = Point(x: int, y: int)
  {
    function Plus(p: Point): Point { Point(x + p.x, y + p.y) }
    function Minus(p: Point): Point { Point(x - p.x, y - p.y) }
  }

  function Abs(n: int): nat { if n < 0 then -n else n }

  function Min(a: int, b: int): int { if a <= b then a else b }

  function Max(a: int, b: int): int { if a <= b then b else a }

  /** `(d > 0) - (d < 0)` in C++. */
  function Sign(d: int): (s: int)
    ensures -1 <= s <= 1
    ensures s * d == Abs(d) && s * Abs(d) == d
    ensures (s > 0 <==> d > 0) && (s < 0 <==> d < 0)
  {
    if d > 0 then 1 else if d < 0 then -1 else 0
  }

  /** C++ `a / 2`: it truncates toward zero, where Dafny's `/` rounds toward
      negative infinity. */
  function Half(a: int): (q: int)
    ensures Abs(a - 2 * q) <= 1 && Abs(2 * q) <= Abs(a)
    ensures a >= 0 ==> q == a / 2
  {
    if a >= 0 then a / 2 else -((-a) / 2)
  }

  /** A QRect as (left, top, width, height); Qt's right edge is left + width - 1. */
  datatype Rect = Rect(left: int, top: int, width: int, height: int)
  {
    function Right(): int { left + width - 1 }
    function Bottom(): int { top + height - 1 }

    /** QRect::isValid. */
    predicate IsValid() { width > 0 && height > 0 }

    /** QRect::isNull: the default-constructed rectangle and its translates. */
    predicate IsNull() { width == 0 && height == 0 }

    /** QRect::contains(point) for a rectangle that is valid or null. */
    predicate Contains(p: Point) { left <= p.x <= Right() && top <= p.y <= Bottom() }
  }

  /** QRect(): x1 = y1 = 0, x2 = y2 = -1. */
  const NullRect := Rect(0, 0, 0, 0)

  /** QRect::center: the midpoint of (x1 + x2, y1 + y2), halved with C++ truncation. */
  function Center(r: Rect): Point
  {
    Point(Half(r.left + r.Right()), Half(r.top + r.Bottom()))
  }

  /** QRect::moveCenter: x1 = p.x - (x2 - x1) / 2 and likewise for y; the size is kept. */
  function MoveCenter(r: Rect, p: Point): (m: Rect)
    requires r.IsValid()
    ensures m.IsValid() && m.width == r.width && m.height == r.height
    ensures m.Right() - m.left == r.Right() - r.left
  {
    Rect(p.x - Half(r.width - 1), p.y - Half(r.height - 1), r.width, r.height)
  }

  /** Moving a rectangle's centre to a point places that point at the new centre,
      provided the point does not lie left of or above the origin. */
  lemma MoveCenterCentres(r: Rect, p: Point)
    requires r.IsValid() && p.x >= 0 && p.y >= 0
    ensures Center(MoveCenter(r, p)) == p
  {
    var m := MoveCenter(r, p);
    assert m.left + m.Right() == 2 * p.x - 2 * ((r.width - 1) / 2) + r.width - 1;
    assert m.top + m.Bottom() == 2 * p.y - 2 * ((r.height - 1) / 2) + r.height - 1;
  }

  /** Moving a rectangle to its own centre leaves it where it is, whenever
      its centre is computed without negative truncation. */
  lemma MoveCenterToOwnCentre(r: Rect)
    requires r.IsValid() && r.left + r.Right() >= 0 && r.top + r.Bottom() >= 0
    ensures MoveCenter(r, Center(r)) == r
  {
  }

  /** With negative coordinates Qt's truncating centre is off by one, so a
      rectangle moved to its own centre can shift. */
  lemma MoveCenterToOwnCentreShifts()
    ensures var r := Rect(-1, 0, 2, 1); MoveCenter(r, Center(r)) == Rect(0, 0, 2, 1)
  {
  }
}
