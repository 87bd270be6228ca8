/** Triangle coverage with the top-left rule, in exact arithmetic: orientation, vertex order,
    shared edges and the clipped bounding box. */
module Raster {
  datatype Point = Point(x: real, y: real)
  datatype Triangle = Triangle(v0: Point, v1: Point, v2: Point)

  function Edge(a: Point, b: Point, p: Point): real {
    (p.x - a.x) * (b.y - a.y) - (p.y - a.y) * (b.x - a.x)
  }

  predicate TopLeft(a: Point, b: Point) {
    b.y - a.y > 0.0 || (b.y - a.y == 0.0 && b.x - a.x < 0.0)
  }

  /** Swaps the last two vertices of a triangle that runs the other way. */
  function Oriented(t: Triangle): Triangle {
    if Edge(t.v0, t.v1, t.v2) < 0.0 then Triangle(t.v0, t.v2, t.v1) else t
  }

  /** On the inner side of an edge, or on a top or left edge. */
  predicate Within(a: Point, b: Point, p: Point) {
    Edge(a, b, p) > 0.0 || (Edge(a, b, p) == 0.0 && TopLeft(a, b))
  }

  predicate Inside(t: Triangle, p: Point) {
    Within(t.v1, t.v2, p) && Within(t.v2, t.v0, p) && Within(t.v0, t.v1, p)
  }

  /** The coverage test of the rasterizer; a triangle without area covers nothing. */
  predicate Covers(t: Triangle, p: Point) {
    var o := Oriented(t);
    Edge(o.v0, o.v1, o.v2) != 0.0 && Inside(o, p)
  }

  // ---------------------------------------------------------------- edges

  lemma EdgeFlip(a: Point, b: Point, p: Point)
    ensures Edge(b, a, p) == -Edge(a, b, p)
  {
  }

  lemma EdgeTurn(a: Point, b: Point, c: Point)
    ensures Edge(a, b, c) == Edge(b, c, a) == Edge(c, a, b)
    ensures Edge(a, c, b) == -Edge(a, b, c)
  {
  }

  lemma TopLeftFlip(a: Point, b: Point)
    requires a != b
    ensures TopLeft(b, a) == !TopLeft(a, b)
  {
  }

  /** A point is on one side of an edge only, whichever triangle asks; also on the edge itself. */
  lemma OneSide(a: Point, b: Point, p: Point)
    requires a != b
    ensures Within(a, b, p) == !Within(b, a, p)
  {
    EdgeFlip(a, b, p);
    TopLeftFlip(a, b);
  }

  // ---------------------------------------------------------------- vertex order

  lemma TurnCovers(t: Triangle, p: Point)
    ensures Covers(Triangle(t.v1, t.v2, t.v0), p) == Covers(t, p)
  {
    EdgeTurn(t.v0, t.v1, t.v2);
    EdgeTurn(t.v0, t.v2, t.v1);
  }

  lemma SwapCovers(t: Triangle, p: Point)
    ensures Covers(Triangle(t.v0, t.v2, t.v1), p) == Covers(t, p)
  {
    EdgeTurn(t.v0, t.v1, t.v2);
  }

  /** The covered set does not depend on the order of the vertices. */
  lemma AnyVertexOrder(a: Point, b: Point, c: Point, p: Point)
    ensures var covered := Covers(Triangle(a, b, c), p);
            && Covers(Triangle(a, c, b), p) == covered && Covers(Triangle(b, c, a), p) == covered
            && Covers(Triangle(b, a, c), p) == covered && Covers(Triangle(c, a, b), p) == covered
            && Covers(Triangle(c, b, a), p) == covered
  {
    TurnCovers(Triangle(a, b, c), p);
    TurnCovers(Triangle(b, c, a), p);
    SwapCovers(Triangle(a, b, c), p);
    SwapCovers(Triangle(b, c, a), p);
    SwapCovers(Triangle(c, a, b), p);
  }

  // ---------------------------------------------------------------- shared edges

  /** p1 and p3 lie strictly on opposite sides of the line through p0 and p2. */
  predicate Opposite(p0: Point, p1: Point, p2: Point, p3: Point) {
    || (Edge(p0, p2, p1) > 0.0 && Edge(p0, p2, p3) < 0.0)
    || (Edge(p0, p2, p1) < 0.0 && Edge(p0, p2, p3) > 0.0)
  }

  /** A covered point lies within every edge, taken in the direction in which the third vertex is
      on the inner side. */
  lemma CoveredWithin(a: Point, b: Point, c: Point, p: Point)
    requires Covers(Triangle(a, b, c), p)
    ensures Edge(a, b, c) > 0.0 ==> Within(a, b, p)
    ensures Edge(a, b, c) < 0.0 ==> Within(b, a, p)
    ensures Edge(a, b, c) != 0.0
  {
    EdgeTurn(a, b, c);
  }

  /** The two triangles of a quad never cover the same point. */
  lemma NoOverlap(p0: Point, p1: Point, p2: Point, p3: Point, q: Point)
    requires Opposite(p0, p1, p2, p3)
    ensures !(Covers(Triangle(p0, p1, p2), q) && Covers(Triangle(p0, p2, p3), q))
  {
    if Covers(Triangle(p0, p1, p2), q) && Covers(Triangle(p0, p2, p3), q) {
      SwapCovers(Triangle(p0, p1, p2), q);
      TurnCovers(Triangle(p0, p2, p1), q);
      CoveredWithin(p0, p2, p1, q);
      CoveredWithin(p0, p2, p3, q);
      OneSide(p0, p2, q);
    }
  }

  function Along(a: Point, b: Point, t: real): Point {
    Point(a.x + t * (b.x - a.x), a.y + t * (b.y - a.y))
  }

  lemma EdgeAlong(a: Point, b: Point, c: Point, t: real)
    ensures Edge(b, c, Along(a, b, t)) == (1.0 - t) * Edge(a, b, c)
    ensures Edge(c, a, Along(a, b, t)) == t * Edge(a, b, c)
    ensures Edge(a, b, Along(a, b, t)) == 0.0
  {
  }

  /** On the open edge ab of a triangle abc: covered iff that edge, in the direction in which c is
      on the inner side, is a top or left edge. */
  lemma OnOpenEdge(a: Point, b: Point, c: Point, t: real)
    requires Edge(a, b, c) != 0.0 && 0.0 < t < 1.0
    ensures Covers(Triangle(a, b, c), Along(a, b, t)) ==
            if Edge(a, b, c) > 0.0 then TopLeft(a, b) else TopLeft(b, a)
  {
    var q, area := Along(a, b, t), Edge(a, b, c);
    EdgeAlong(a, b, c, t);
    EdgeFlip(a, b, q);
    EdgeFlip(b, c, q);
    EdgeFlip(c, a, q);
    EdgeTurn(a, b, c);
    SignTimes(1.0 - t, area);
    SignTimes(t, area);
  }

  lemma SignTimes(t: real, r: real)
    requires t > 0.0
    ensures (t * r > 0.0) == (r > 0.0) && (t * r < 0.0) == (r < 0.0)
  {
  }

  /** Every point of the open diagonal of a quad is covered by exactly one of its triangles. */
  lemma DiagonalCoveredOnce(p0: Point, p1: Point, p2: Point, p3: Point, t: real)
    requires Opposite(p0, p1, p2, p3) && 0.0 < t < 1.0
    ensures var q := Along(p0, p2, t);
            Covers(Triangle(p0, p1, p2), q) == !Covers(Triangle(p0, p2, p3), q)
  {
    OnOpenEdge(p0, p2, p1, t);
    OnOpenEdge(p0, p2, p3, t);
    SwapCovers(Triangle(p0, p1, p2), Along(p0, p2, t));
    TopLeftFlip(p0, p2);
  }

  // ---------------------------------------------------------------- coverage in coordinates

  /** The x of the line through a and b at height y. */
  function LineX(a: Point, b: Point, y: real): real
    requires a.y != b.y
  {
    a.x + (y - a.y) * ((b.x - a.x) / (b.y - a.y))
  }

  /** An edge owns its points if the triangle lies to the right of it, or below it if it is level. */
  predicate Owns(a: Point, b: Point, third: Point) {
    if a.y == b.y then third.y > a.y else third.x > LineX(a, b, third.y)
  }

  lemma RightOfLine(a: Point, b: Point, c: Point)
    requires a.y != b.y
    ensures (c.x - LineX(a, b, c.y)) * (b.y - a.y) == Edge(a, b, c)
  {
    var dx, dy := b.x - a.x, b.y - a.y;
    assert dx / dy * dy == dx;
    assert (c.y - a.y) * (dx / dy) * dy == (c.y - a.y) * dx;
  }

  lemma TopLeftOwns(a: Point, b: Point, c: Point)
    requires Edge(a, b, c) > 0.0
    ensures TopLeft(a, b) == Owns(a, b, c)
  {
    if a.y == b.y {
      Product(c.y - a.y, a.x - b.x);
    } else {
      RightOfLine(a, b, c);
      Product(c.x - LineX(a, b, c.y), b.y - a.y);
    }
  }

  lemma Product(x: real, y: real)
    requires x * y > 0.0
    ensures x > 0.0 <==> y > 0.0
    ensures x != 0.0 && y != 0.0
  {
    if x > 0.0 && y <= 0.0 { SignTimes(x, y); }
    if y > 0.0 && x <= 0.0 { SignTimes(y, x); }
  }

  lemma OwnsFlip(a: Point, b: Point, c: Point)
    requires a != b
    ensures Owns(b, a, c) == Owns(a, b, c)
  {
    if a.y != b.y {
      RightOfLine(a, b, c);
      RightOfLine(b, a, c);
      EdgeFlip(a, b, c);
      SameFactor(c.x - LineX(a, b, c.y), c.x - LineX(b, a, c.y), b.y - a.y);
    }
  }

  lemma SameFactor(x: real, y: real, d: real)
    requires d != 0.0 && x * d == -(y * -d)
    ensures x == y
  {
    assert (x - y) * d == 0.0;
  }

  /** A point of an open edge is covered iff the triangle lies to the right of that edge, or below it if
      the edge is level. */
  lemma EdgeInCoordinates(a: Point, b: Point, c: Point, t: real)
    requires Edge(a, b, c) != 0.0 && 0.0 < t < 1.0
    ensures Covers(Triangle(a, b, c), Along(a, b, t)) == Owns(a, b, c)
  {
    hide Covers, Owns, TopLeft;
    OnOpenEdge(a, b, c, t);
    EdgeFlip(a, b, c);
    if Edge(a, b, c) > 0.0 {
      TopLeftOwns(a, b, c);
    } else {
      TopLeftOwns(b, a, c);
      OwnsFlip(a, b, c);
    }
  }

  /** The point with these weights of the three vertices. */
  function Weighted(t: Triangle, w0: real, w1: real, w2: real): Point {
    Point(w0 * t.v0.x + w1 * t.v1.x + w2 * t.v2.x, w0 * t.v0.y + w1 * t.v1.y + w2 * t.v2.y)
  }

  lemma EdgeOfWeighted(a: Point, b: Point, c: Point, w0: real, w1: real)
    ensures Edge(b, c, Weighted(Triangle(a, b, c), w0, w1, 1.0 - w0 - w1)) == w0 * Edge(a, b, c)
  {
  }

  /** Points inside a triangle are covered, points outside are not, whichever way it runs. */
  lemma InsideIsCovered(t: Triangle, w0: real, w1: real, w2: real)
    requires Edge(t.v0, t.v1, t.v2) != 0.0 && w0 + w1 + w2 == 1.0
    ensures w0 > 0.0 && w1 > 0.0 && w2 > 0.0 ==> Covers(t, Weighted(t, w0, w1, w2))
    ensures w0 < 0.0 || w1 < 0.0 || w2 < 0.0 ==> !Covers(t, Weighted(t, w0, w1, w2))
  {
    var p, area := Weighted(t, w0, w1, w2), Edge(t.v0, t.v1, t.v2);
    EdgeOfWeighted(t.v0, t.v1, t.v2, w0, w1);
    EdgeOfWeighted(t.v1, t.v2, t.v0, w1, w2);
    EdgeOfWeighted(t.v2, t.v0, t.v1, w2, w0);
    EdgeTurn(t.v0, t.v1, t.v2);
    assert p == Weighted(Triangle(t.v1, t.v2, t.v0), w1, w2, w0) == Weighted(Triangle(t.v2, t.v0, t.v1), w2, w0, w1);
    SignedEdges(t, p, area, w0, w1, w2);
  }

  lemma SignedEdges(t: Triangle, p: Point, area: real, w0: real, w1: real, w2: real)
    requires area == Edge(t.v0, t.v1, t.v2) != 0.0
    requires Edge(t.v1, t.v2, p) == w0 * area && Edge(t.v2, t.v0, p) == w1 * area && Edge(t.v0, t.v1, p) == w2 * area
    ensures w0 > 0.0 && w1 > 0.0 && w2 > 0.0 ==> Covers(t, p)
    ensures w0 < 0.0 || w1 < 0.0 || w2 < 0.0 ==> !Covers(t, p)
  {
    SignOfWeight(w0, area);
    SignOfWeight(w1, area);
    SignOfWeight(w2, area);
    EdgeFlip(t.v0, t.v1, p);
    EdgeFlip(t.v1, t.v2, p);
    EdgeFlip(t.v2, t.v0, p);
    EdgeTurn(t.v0, t.v1, t.v2);
    hide Edge;
  }

  lemma SignOfWeight(w: real, area: real)
    requires area != 0.0
    ensures w > 0.0 ==> (w * area > 0.0 <==> area > 0.0) && (w * area < 0.0 <==> area < 0.0)
    ensures w < 0.0 ==> (w * area > 0.0 <==> area < 0.0) && (w * area < 0.0 <==> area > 0.0)
  {
    if w > 0.0 { SignTimes(w, area); }
    if w < 0.0 { SignTimes(-w, area); }
  }

  /** A rectangle drawn as two triangles covers its left and top sides and not its right and bottom ones. */
  lemma RectangleCovered(l: real, t: real, r: real, b: real, p: Point)
    requires l < r && t < b
    ensures var (p0, p1, p2, p3) := (Point(l, t), Point(r, t), Point(r, b), Point(l, b));
            Covers(Triangle(p0, p1, p2), p) || Covers(Triangle(p0, p2, p3), p) <==> l <= p.x < r && t <= p.y < b
  {
    hide Covers;
    UpperHalf(l, t, r, b, p);
    LowerHalf(l, t, r, b, p);
    TwoHalves(p.x - l, p.y - t, r - l, b - t);
  }

  /** Both halves of a w by h rectangle, with the diagonal in the upper one. */
  lemma TwoHalves(x: real, y: real, w: real, h: real)
    requires w > 0.0 && h > 0.0
    ensures (x < w && y >= 0.0 && x * h - y * w >= 0.0) || (x >= 0.0 && y < h && x * h - y * w < 0.0) <==>
            0.0 <= x < w && 0.0 <= y < h
  {
    if x * h - y * w >= 0.0 { Corner(x, y, w, h); } else { Corner(y, x, h, w); }
  }

  lemma Corner(x: real, y: real, w: real, h: real)
    requires w > 0.0 && h > 0.0 && x * h >= y * w
    ensures y >= 0.0 ==> x >= 0.0
    ensures x < w ==> y < h
  {
    Distribute(x, y, w, h);
    if y >= 0.0 && x < 0.0 {
      SignTimes(h, x);
      NotNegative(y, w);
    }
    if x < w && y >= h {
      SignTimes(h, w - x);
      NotNegative(y - h, w);
    }
  }

  lemma Distribute(x: real, y: real, w: real, h: real)
    ensures h * (w - x) + (y - h) * w == y * w - x * h
  {
  }

  lemma NotNegative(y: real, w: real)
    requires y >= 0.0 && w > 0.0
    ensures y * w >= 0.0
  {
  }

  /** Its two triangles lie on either side of the diagonal. */
  lemma RectangleOpposite(l: real, t: real, r: real, b: real)
    requires l < r && t < b
    ensures Opposite(Point(l, t), Point(r, t), Point(r, b), Point(l, b))
  {
    hide Edge;
    var p0, p1, p2, p3 := Point(l, t), Point(r, t), Point(r, b), Point(l, b);
    LevelEdge(p0, p1, p2);
    EdgeTurn(p0, p1, p2);
    UprightEdge(p0, p3, p2);
    EdgeTurn(p0, p3, p2);
  }

  lemma SignOfProduct(x: real, d: real)
    requires d != 0.0
    ensures x * d == 0.0 <==> x == 0.0
    ensures x * d > 0.0 <==> x != 0.0 && (x > 0.0 <==> d > 0.0)
  {
    if x > 0.0 { SignTimes(x, d); }
    if x < 0.0 { SignTimes(-x, d); }
  }

  lemma LevelEdge(a: Point, b: Point, p: Point)
    requires a.y == b.y && a.x != b.x
    ensures Edge(a, b, p) == (p.y - a.y) * (a.x - b.x)
    ensures Edge(a, b, p) == 0.0 <==> p.y == a.y
    ensures Edge(a, b, p) > 0.0 <==> p.y != a.y && (p.y > a.y <==> a.x > b.x)
  {
    SignOfProduct(p.y - a.y, a.x - b.x);
  }

  lemma UprightEdge(a: Point, b: Point, p: Point)
    requires a.x == b.x && a.y != b.y
    ensures Edge(a, b, p) == (p.x - a.x) * (b.y - a.y)
    ensures Edge(a, b, p) == 0.0 <==> p.x == a.x
    ensures Edge(a, b, p) > 0.0 <==> p.x != a.x && (p.x > a.x <==> b.y > a.y)
  {
    SignOfProduct(p.x - a.x, b.y - a.y);
  }

  /** How far p is above the diagonal, times a length. */
  function Rise(l: real, t: real, r: real, b: real, p: Point): real {
    (p.x - l) * (b - t) - (p.y - t) * (r - l)
  }

  lemma DiagonalSide(l: real, t: real, r: real, b: real, p: Point)
    requires t < b
    ensures Within(Point(l, t), Point(r, b), p) <==> Rise(l, t, r, b, p) >= 0.0
    ensures Within(Point(r, b), Point(l, t), p) <==> Rise(l, t, r, b, p) < 0.0
  {
    EdgeFlip(Point(l, t), Point(r, b), p);
    assert Edge(Point(l, t), Point(r, b), p) == Rise(l, t, r, b, p);
    hide Edge, Rise;
  }

  lemma UpperHalf(l: real, t: real, r: real, b: real, p: Point)
    requires l < r && t < b
    ensures Covers(Triangle(Point(l, t), Point(r, t), Point(r, b)), p) <==>
            p.x < r && p.y >= t && Rise(l, t, r, b, p) >= 0.0
  {
    hide Edge, Rise;
    var p0, p1, p2 := Point(l, t), Point(r, t), Point(r, b);
    LevelEdge(p0, p1, p2);
    EdgeTurn(p0, p1, p2);
    UprightEdge(p2, p1, p);
    LevelEdge(p1, p0, p);
    DiagonalSide(l, t, r, b, p);
  }

  lemma LowerHalf(l: real, t: real, r: real, b: real, p: Point)
    requires l < r && t < b
    ensures Covers(Triangle(Point(l, t), Point(r, b), Point(l, b)), p) <==>
            p.x >= l && p.y < b && Rise(l, t, r, b, p) < 0.0
  {
    hide Edge, Rise;
    var p0, p2, p3 := Point(l, t), Point(r, b), Point(l, b);
    UprightEdge(p0, p3, p2);
    EdgeTurn(p0, p3, p2);
    LevelEdge(p3, p2, p);
    UprightEdge(p0, p3, p);
    DiagonalSide(l, t, r, b, p);
  }

  // ---------------------------------------------------------------- bounding box

  function Min3(a: real, b: real, c: real): real {
    var m := if a <= b then a else b;
    if m <= c then m else c
  }

  function Max3(a: real, b: real, c: real): real {
    var m := if a >= b then a else b;
    if m >= c then m else c
  }

  function Ceiling(r: real): int { -(-r).Floor }

  /** A conversion to i32 saturates. */
  function ToI32(i: int): int {
    if i < -0x8000_0000 then -0x8000_0000 else if i > 0x7fff_ffff then 0x7fff_ffff else i
  }

  function FirstPixel(least: real): int { ToI32(if least.Floor < 0 then 0 else least.Floor) }

  function LastPixel(greatest: real, size: int): int {
    ToI32(if Ceiling(greatest) > size - 1 then size - 1 else Ceiling(greatest))
  }

  function MinX(t: Triangle): int { FirstPixel(Min3(t.v0.x, t.v1.x, t.v2.x)) }
  function MaxX(t: Triangle, width: int): int { LastPixel(Max3(t.v0.x, t.v1.x, t.v2.x), width) }
  function MinY(t: Triangle): int { FirstPixel(Min3(t.v0.y, t.v1.y, t.v2.y)) }
  function MaxY(t: Triangle, height: int): int { LastPixel(Max3(t.v0.y, t.v1.y, t.v2.y), height) }

  function Centre(x: int, y: int): Point { Point(x as real + 0.5, y as real + 0.5) }

  lemma EdgesAdd(t: Triangle, p: Point)
    ensures Edge(t.v1, t.v2, p) + Edge(t.v2, t.v0, p) + Edge(t.v0, t.v1, p) == Edge(t.v0, t.v1, t.v2)
  {
  }

  /** The edge values are the weights with which the vertices make up the point. */
  lemma Weights(t: Triangle, p: Point)
    ensures Edge(t.v1, t.v2, p) * (t.v0.x - p.x) + Edge(t.v2, t.v0, p) * (t.v1.x - p.x)
            + Edge(t.v0, t.v1, p) * (t.v2.x - p.x) == 0.0
    ensures Edge(t.v1, t.v2, p) * (t.v0.y - p.y) + Edge(t.v2, t.v0, p) * (t.v1.y - p.y)
            + Edge(t.v0, t.v1, p) * (t.v2.y - p.y) == 0.0
  {
  }

  lemma PositiveTerm(e: real, d: real)
    requires e >= 0.0 && d > 0.0
    ensures e * d >= 0.0 && (e > 0.0 ==> e * d > 0.0)
  {
  }

  /** Weights that are not negative and not all zero cannot balance terms of one sign. */
  lemma Balance(e0: real, e1: real, e2: real, d0: real, d1: real, d2: real)
    requires e0 >= 0.0 && e1 >= 0.0 && e2 >= 0.0 && e0 + e1 + e2 > 0.0
    requires e0 * d0 + e1 * d1 + e2 * d2 == 0.0
    ensures Min3(d0, d1, d2) <= 0.0
  {
    if d0 > 0.0 && d1 > 0.0 && d2 > 0.0 {
      PositiveTerm(e0, d0);
      PositiveTerm(e1, d1);
      PositiveTerm(e2, d2);
      assert false;
    }
  }

  lemma CoveredInHull(t: Triangle, p: Point)
    requires Covers(t, p)
    ensures Min3(t.v0.x, t.v1.x, t.v2.x) <= p.x <= Max3(t.v0.x, t.v1.x, t.v2.x)
    ensures Min3(t.v0.y, t.v1.y, t.v2.y) <= p.y <= Max3(t.v0.y, t.v1.y, t.v2.y)
  {
    var o := Oriented(t);
    EdgeTurn(t.v0, t.v1, t.v2);
    EdgesAdd(o, p);
    Weights(o, p);
    Spread(Edge(o.v1, o.v2, p), Edge(o.v2, o.v0, p), Edge(o.v0, o.v1, p), o.v0.x, o.v1.x, o.v2.x, p.x);
    Spread(Edge(o.v1, o.v2, p), Edge(o.v2, o.v0, p), Edge(o.v0, o.v1, p), o.v0.y, o.v1.y, o.v2.y, p.y);
  }

  /** A weighted mean lies between the least and the greatest value. */
  lemma Spread(e0: real, e1: real, e2: real, a: real, b: real, c: real, m: real)
    requires e0 >= 0.0 && e1 >= 0.0 && e2 >= 0.0 && e0 + e1 + e2 > 0.0
    requires e0 * (a - m) + e1 * (b - m) + e2 * (c - m) == 0.0
    ensures Min3(a, b, c) <= m <= Max3(a, b, c)
  {
    Balance(e0, e1, e2, a - m, b - m, c - m);
    Negate(e0, e1, e2, a - m, b - m, c - m);
    Balance(e0, e1, e2, -(a - m), -(b - m), -(c - m));
  }

  lemma Negate(e0: real, e1: real, e2: real, d0: real, d1: real, d2: real)
    ensures e0 * -d0 + e1 * -d1 + e2 * -d2 == -(e0 * d0 + e1 * d1 + e2 * d2)
  {
  }

  lemma PixelBounds(least: real, greatest: real, i: int, size: int)
    requires 0 <= i < size <= 0x7fff_ffff && least <= i as real + 0.5 <= greatest
    ensures FirstPixel(least) <= i <= LastPixel(greatest, size)
  {
    var c := Ceiling(greatest);
    assert (-greatest).Floor as real <= -greatest;
    assert c as real >= greatest;
  }

  predicate InBox(t: Triangle, x: int, y: int, width: int, height: int) {
    MinX(t) <= x <= MaxX(t, width) && MinY(t) <= y <= MaxY(t, height)
  }

  /** The clipped bounding box misses no pixel of the framebuffer that is covered. */
  lemma ScanMissesNothing(t: Triangle, x: int, y: int, width: int, height: int)
    requires 0 <= x < width <= 0x7fff_ffff && 0 <= y < height <= 0x7fff_ffff
    requires Covers(t, Centre(x, y))
    ensures InBox(t, x, y, width, height)
  {
    CoveredInHull(t, Centre(x, y));
    PixelBounds(Min3(t.v0.x, t.v1.x, t.v2.x), Max3(t.v0.x, t.v1.x, t.v2.x), x, width);
    PixelBounds(Min3(t.v0.y, t.v1.y, t.v2.y), Max3(t.v0.y, t.v1.y, t.v2.y), y, height);
  }

  /** ... and leaves the framebuffer nowhere. */
  lemma ScanStaysInside(t: Triangle, x: int, y: int, width: int, height: int)
    requires 1 <= width <= 0x7fff_ffff && 1 <= height <= 0x7fff_ffff
    requires InBox(t, x, y, width, height)
    ensures 0 <= x < width && 0 <= y < height
  {
  }
}
