/** The pixel grid the tools draw on and the 4-neighbourhood that flood fill walks.
    An image is a `width x height` array of colours indexed `img[x, y]`. */
module Raster {
  import opened Geometry

  /** `image->rect().contains(p)` for an image of the given size. */
  predicate Inside(w: int, h: int, p: Point)
  {
    0 <= p.x < w && 0 <= p.y < h
  }

  /** A value snapshot of an image: column `x` holds the pixels `(x, 0)..(x, h - 1)`. */
  predicate IsGrid(g: seq<seq<int>>, w: nat, h: nat)
  {
    |g| == w && forall x :: 0 <= x < w ==> |g[x]| == h
  }

  function Pixels(img: array2<int>): (g: seq<seq<int>>)
    reads img
    ensures IsGrid(g, img.Length0, img.Length1)
  {
    seq(img.Length0, x requires 0 <= x < img.Length0 reads img =>
      seq(img.Length1, y requires 0 <= y < img.Length1 reads img => img[x, y]))
  }

  /** The snapshot `g` with the pixels of `pts` that lie inside it set to `color`. */
  function Paint(g: seq<seq<int>>, pts: seq<Point>, color: int): (r: seq<seq<int>>)
    ensures |r| == |g| && forall x :: 0 <= x < |g| ==> |r[x]| == |g[x]|
  {
    seq(|g|, x requires 0 <= x < |g| =>
      seq(|g[x]|, y requires 0 <= y < |g[x]| => if Point(x, y) in pts then color else g[x][y]))
  }

  /** Between the enclosing method's entry and now, exactly the pixels of
      `pts` that lie inside the image have been given `color`; every other
      pixel is as it was. */
  twostate predicate Painted(img: array2<int>, pts: seq<Point>, color: int)
    reads img
  {
    Pixels(img) == Paint(old(Pixels(img)), pts, color)
  }

  /** Painting no point leaves a snapshot as it is. */
  lemma PaintNothing(g: seq<seq<int>>, color: int)
    ensures Paint(g, [], color) == g
  {
    var r := Paint(g, [], color);
    forall x | 0 <= x < |g| ensures r[x] == g[x] {
    }
  }

  /** Painting `a` and then `b` is painting `a + b`. */
  lemma PaintTwice(g: seq<seq<int>>, a: seq<Point>, b: seq<Point>, color: int)
    ensures Paint(Paint(g, a, color), b, color) == Paint(g, a + b, color)
  {
    var r, t := Paint(Paint(g, a, color), b, color), Paint(g, a + b, color);
    forall x | 0 <= x < |g| ensures r[x] == t[x] {
    }
  }

  /** Two snapshots of the same size with the same pixels are equal. */
  lemma GridsEqual(a: seq<seq<int>>, b: seq<seq<int>>, w: nat, h: nat)
    requires IsGrid(a, w, h) && IsGrid(b, w, h)
    requires forall x, y :: 0 <= x < w && 0 <= y < h ==> a[x][y] == b[x][y]
    ensures a == b
  {
    forall x | 0 <= x < w ensures a[x] == b[x] {
      assert forall y :: 0 <= y < h ==> a[x][y] == b[x][y];
    }
  }

  /** The four offsets FloodFill expands a pixel by, in its order. */
  const Expansion: seq<Point> := [Point(1, 0), Point(0, 1), Point(-1, 0), Point(0, -1)]

  function Neighbour(p: Point, d: nat): Point
    requires d < 4
  {
    p.Plus(Expansion[d])
  }

  /** 4-adjacency: the points differ by one unit in exactly one coordinate. */
  predicate Adjacent(p: Point, q: Point)
  {
    Abs(p.x - q.x) + Abs(p.y - q.y) == 1
  }

  lemma NeighbourIsAdjacent(p: Point, d: nat)
    requires d < 4
    ensures Adjacent(p, Neighbour(p, d))
  {
  }

  /** The expansion offsets reach every 4-adjacent point. */
  lemma AdjacentIsNeighbour(p: Point, q: Point) returns (d: nat)
    requires Adjacent(p, q)
    ensures d < 4 && q == Neighbour(p, d)
  {
    if q.x == p.x + 1 { d := 0; }
    else if q.y == p.y + 1 { d := 1; }
    else if q.x == p.x - 1 { d := 2; }
    else { d := 3; }
  }

  /** A 4-connected walk through the point set `s`. */
  predicate IsPath(path: seq<Point>, s: set<Point>)
  {
    |path| > 0 &&
    (forall i :: 0 <= i < |path| ==> path[i] in s) &&
    (forall i :: 0 <= i < |path| - 1 ==> Adjacent(path[i], path[i + 1]))
  }

  /** The discovery order of a fill: `order[0]` is the seed and every later
      point was found next to the earlier point `parent[i]`. */
  predicate GrownFrom(order: seq<Point>, parent: seq<int>)
  {
    |parent| == |order| &&
    forall i :: 0 < i < |order| ==> 0 <= parent[i] < i && Adjacent(order[parent[i]], order[i])
  }

  /** Discovering a new point next to an earlier one keeps the record a
      discovery order. */
  lemma GrownFromSnoc(order: seq<Point>, parent: seq<int>, p: Point, t: int)
    requires GrownFrom(order, parent) && 0 <= t < |order| && Adjacent(order[t], p)
    ensures GrownFrom(order + [p], parent + [t])
  {
    var order', parent' := order + [p], parent + [t];
    forall i | 0 < i < |order'| ensures 0 <= parent'[i] < i && Adjacent(order'[parent'[i]], order'[i]) {
      if i < |order| {
        assert parent'[i] == parent[i] && order'[i] == order[i] && order'[parent[i]] == order[parent[i]];
      }
    }
  }

  /** Every point a fill discovered is joined to its seed by a 4-connected
      path through discovered points. */
  lemma {:induction false} PathFromSeed(order: seq<Point>, parent: seq<int>, k: nat) returns (path: seq<Point>)
    requires GrownFrom(order, parent) && k < |order|
    ensures IsPath(path, set p | p in order)
    ensures path[0] == order[0] && path[|path| - 1] == order[k]
    decreases k
  {
    if k == 0 {
      path := [order[0]];
    } else {
      var prefix := PathFromSeed(order, parent, parent[k]);
      path := prefix + [order[k]];
      forall i | 0 <= i < |path| - 1 ensures Adjacent(path[i], path[i + 1]) {
        if i < |prefix| - 1 {
          assert path[i] == prefix[i] && path[i + 1] == prefix[i + 1];
        }
      }
    }
  }

  /** A discovered set that takes in every neighbour lying in `s` holds every
      4-connected path through `s` that starts inside it. */
  lemma {:induction false} ClosedRegionHoldsPaths(s: set<Point>, order: seq<Point>, path: seq<Point>)
    requires IsPath(path, s) && path[0] in order
    requires forall i, d :: 0 <= i < |order| && 0 <= d < 4 && Neighbour(order[i], d) in s ==> Neighbour(order[i], d) in order
    ensures forall i :: 0 <= i < |path| ==> path[i] in order
  {
    if |path| > 1 {
      var prefix := path[..|path| - 1];
      assert IsPath(prefix, s) by {
        forall i | 0 <= i < |prefix| - 1 ensures Adjacent(prefix[i], prefix[i + 1]) {
          assert prefix[i] == path[i] && prefix[i + 1] == path[i + 1];
        }
      }
      ClosedRegionHoldsPaths(s, order, prefix);
      var last, before := path[|path| - 1], path[|path| - 2];
      assert before == prefix[|prefix| - 1];
      var j :| 0 <= j < |order| && order[j] == before;
      var d := AdjacentIsNeighbour(before, last);
      assert last in order;
      forall i | 0 <= i < |path| ensures path[i] in order {
        if i < |path| - 1 { assert path[i] == prefix[i]; }
      }
    }
  }

  /** The pixels of the `w x h` snapshot `g` that hold colour `c`. */
  function Region(g: seq<seq<int>>, w: nat, h: nat, c: int): set<Point>
    requires IsGrid(g, w, h)
  {
    set x, y | 0 <= x < w && 0 <= y < h && g[x][y] == c :: Point(x, y)
  }

  lemma InRegion(g: seq<seq<int>>, w: nat, h: nat, c: int, p: Point)
    requires IsGrid(g, w, h)
    ensures p in Region(g, w, h, c) <==> Inside(w, h, p) && g[p.x][p.y] == c
  {
    if Inside(w, h, p) && g[p.x][p.y] == c {
      assert Point(p.x, p.y) == p;
    }
  }

  /** `q` can be reached from `p` by a 4-connected walk through `s`. */
  ghost predicate Connected(s: set<Point>, p: Point, q: Point)
  {
    exists path :: IsPath(path, s) && path[0] == p && path[|path| - 1] == q
  }

  /** The 4-connected component of `seed` among the pixels of its colour. */
  ghost function Component(g: seq<seq<int>>, w: nat, h: nat, seed: Point): set<Point>
    requires IsGrid(g, w, h) && Inside(w, h, seed)
  {
    var region := Region(g, w, h, g[seed.x][seed.y]);
    set p | p in region && Connected(region, seed, p)
  }

  predicate Distinct(s: seq<Point>)
  {
    forall i, j :: 0 <= i < j < |s| ==> s[i] != s[j]
  }

  lemma DistinctSnoc(s: seq<Point>, p: Point)
    requires Distinct(s) && p !in s
    ensures Distinct(s + [p])
  {
  }

  /** The points of a `w x h` image. */
  function Box(w: nat, h: nat): set<Point>
  {
    set x, y | 0 <= x < w && 0 <= y < h :: Point(x, y)
  }

  function Row(w: nat, y: int): set<Point>
  {
    set x | 0 <= x < w :: Point(x, y)
  }

  lemma {:induction false} RowSize(w: nat, y: int)
    ensures |Row(w, y)| == w
  {
    if w > 0 {
      RowSize(w - 1, y);
      assert Row(w, y) == Row(w - 1, y) + {Point(w - 1, y)};
    }
  }

  /** A `w x h` image has exactly `w * h` pixels. */
  lemma {:induction false} BoxSize(w: nat, h: nat)
    ensures |Box(w, h)| == w * h
  {
    if h > 0 {
      BoxSize(w, h - 1);
      RowSize(w, h - 1);
      assert Box(w, h) == Box(w, h - 1) + Row(w, h - 1);
      assert Box(w, h - 1) !! Row(w, h - 1);
      MulPred(w, h);
    }
  }

  lemma MulPred(w: int, h: int)
    ensures w * h == w * (h - 1) + w
  {
  }

  lemma {:induction false} DistinctSize(s: seq<Point>)
    requires Distinct(s)
    ensures |set p | p in s| == |s|
  {
    if s != [] {
      var init := s[..|s| - 1];
      DistinctSize(init);
      assert (set p | p in s) == (set p | p in init) + {s[|s| - 1]};
    }
  }

  lemma {:induction false} SubsetSize(a: set<Point>, b: set<Point>)
    requires a <= b
    ensures |a| <= |b|
    decreases a
  {
    if a != {} {
      var p :| p in a;
      SubsetSize(a - {p}, b - {p});
    }
  }

  /** A list of pairwise different pixels of a `w x h` image has at most
      `w * h` entries. */
  lemma DistinctInsideBound(s: seq<Point>, w: nat, h: nat)
    requires Distinct(s)
    requires forall i :: 0 <= i < |s| ==> Inside(w, h, s[i])
    ensures |s| <= w * h
  {
    DistinctSize(s);
    BoxSize(w, h);
    assert (set p | p in s) <= Box(w, h) by {
      forall p | p in s ensures p in Box(w, h) {
        assert Point(p.x, p.y) == p;
      }
    }
    SubsetSize((set p | p in s), Box(w, h));
  }
}
