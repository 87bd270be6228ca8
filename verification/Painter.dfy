/** Painting textured triangles and quads into a framebuffer in place: the bounding-box scan
    against the reference that tests every pixel, and quads that paint each pixel once. */
module Painter {
  import opened Arith
  import opened Blend
  import opened Raster

  datatype Vertex = Vertex(p: Point, u: real, v: real)

  datatype Texture = Texture(width: int, height: int, pixels: seq<Rgba8>)

  predicate TextureOk(t: Texture) {
    t.width > 0 && t.height > 0 && |t.pixels| == t.width * t.height
  }

  datatype Paint = Paint(a: Vertex, b: Vertex, c: Vertex, tex: Texture, tint: Rgba8)

  function Shape(q: Paint): Triangle { Triangle(q.a.p, q.b.p, q.c.p) }

  function Clamp(i: int, size: int): (r: int)
    requires size > 0
    ensures 0 <= r < size
  {
    if i < 0 then 0 else if i > size - 1 then size - 1 else i
  }

  lemma CellInRange(x: int, y: int, width: int, height: int)
    requires 0 <= x < width && 0 <= y < height
    ensures 0 <= y * width + x < width * height
  {
    assert (height - 1 - y) * width >= 0;
    assert width * height == y * width + (height - 1 - y) * width + width;
  }

  function SampleNearest(tex: Texture, u: real, v: real): Rgba8
    requires TextureOk(tex)
  {
    var x, y := Clamp(u.Floor, tex.width), Clamp(v.Floor, tex.height);
    CellInRange(x, y, tex.width, tex.height);
    tex.pixels[y * tex.width + x]
  }

  /** A texture coordinate that falls on texel i of a line of them; the first and last texel go on
      outwards. */
  predicate OnTexel(u: real, i: int, size: int) {
    (i as real <= u || i == 0) && (u < i as real + 1.0 || i == size - 1)
  }

  /** Sampling gives the texel under the coordinates, row by row. */
  lemma TexelUnder(tex: Texture, u: real, v: real, x: int, y: int)
    requires TextureOk(tex) && 0 <= x < tex.width && 0 <= y < tex.height
    requires OnTexel(u, x, tex.width) && OnTexel(v, y, tex.height)
    ensures 0 <= y * tex.width + x < |tex.pixels| && SampleNearest(tex, u, v) == tex.pixels[y * tex.width + x]
  {
    CellInRange(x, y, tex.width, tex.height);
    ClampedTexel(u, x, tex.width);
    ClampedTexel(v, y, tex.height);
  }

  lemma ClampedTexel(u: real, i: int, size: int)
    requires 0 <= i < size && OnTexel(u, i, size)
    ensures Clamp(u.Floor, size) == i
  {
    assert u.Floor as real <= u < u.Floor as real + 1.0;
  }

  /** The vertices as the rasterizer orders them. */
  function Ordered(q: Paint): Paint {
    if Edge(q.a.p, q.b.p, q.c.p) < 0.0 then q.(b := q.c, c := q.b) else q
  }

  /** A quantity given at three vertices, interpolated at p by the three edge values. */
  function Mix(a: Point, b: Point, c: Point, fa: real, fb: real, fc: real, p: Point): real
    requires Edge(a, b, c) != 0.0
  {
    var inv := 1.0 / Edge(a, b, c);
    fa * (Edge(b, c, p) * inv) + fb * (Edge(c, a, p) * inv) + fc * (Edge(a, b, p) * inv)
  }

  /** The colour a covered pixel is composited with: barycentric texture coordinates, nearest
      texel, tint. */
  function Source(q: Paint, p: Point): Rgba8
    requires TextureOk(q.tex) && Covers(Shape(q), p)
  {
    var o := Ordered(q);
    var u := Mix(o.a.p, o.b.p, o.c.p, o.a.u, o.b.u, o.c.u, p);
    var v := Mix(o.a.p, o.b.p, o.c.p, o.a.v, o.b.v, o.c.v, p);
    Modulate(SampleNearest(q.tex, u, v), q.tint)
  }

  /** What painting does to the pixel at (x, y), whether or not a scan gets there. */
  function PaintPixel(q: Paint, was: Rgba8, x: int, y: int): Rgba8
    requires TextureOk(q.tex)
  {
    if Covers(Shape(q), Centre(x, y)) then SrcOver(was, Source(q, Centre(x, y))) else was
  }

  const BLANK := Rgba(0, 0, 0, 0)

  /** The pixel at (x, y) of a framebuffer stored row by row. */
  function Pixel(fb: seq<Rgba8>, width: int, x: int, y: int): Rgba8 {
    if 0 <= y * width + x < |fb| then fb[y * width + x] else BLANK
  }

  predicate OnScreen(x: int, y: int, width: int, height: int) { 0 <= x < width && 0 <= y < height }

  /** `fb` is `was` after painting, pixel by pixel over the whole framebuffer. */
  ghost predicate Painted(fb: seq<Rgba8>, was: seq<Rgba8>, q: Paint, width: int, height: int)
    requires TextureOk(q.tex)
  {
    |fb| == |was| &&
    forall x, y :: OnScreen(x, y, width, height) ==> Pixel(fb, width, x, y) == PaintPixel(q, Pixel(was, width, x, y), x, y)
  }

  predicate Before(x: int, y: int, atX: int, atY: int) { y < atY || (y == atY && x < atX) }

  /** The pixels before (atX, atY) in scan order are painted, the others are as before. */
  ghost predicate PaintedUpTo(fb: seq<Rgba8>, was: seq<Rgba8>, q: Paint, width: int, height: int, atX: int, atY: int)
    requires TextureOk(q.tex)
  {
    |fb| == |was| &&
    forall x, y :: OnScreen(x, y, width, height) ==>
      Pixel(fb, width, x, y) ==
        if Before(x, y, atX, atY) then PaintPixel(q, Pixel(was, width, x, y), x, y) else Pixel(was, width, x, y)
  }

  lemma CellsDiffer(x: int, y: int, x': int, y': int, width: int)
    requires 0 <= x < width && 0 <= x' < width && y * width + x == y' * width + x'
    ensures x == x' && y == y'
  {
    if y > y' { ProductOrder(y, y' + 1, width); } else if y < y' { ProductOrder(y', y + 1, width); }
  }

  /** Updating one pixel leaves all others. */
  lemma UpdatePixel(fb: seq<Rgba8>, width: int, height: int, x: int, y: int, c: Rgba8)
    requires OnScreen(x, y, width, height) && |fb| == width * height
    ensures 0 <= y * width + x < |fb|
    ensures forall x', y' :: OnScreen(x', y', width, height) ==>
              Pixel(fb[y * width + x := c], width, x', y') == if x' == x && y' == y then c else Pixel(fb, width, x', y')
  {
    CellInRange(x, y, width, height);
    forall x', y' | OnScreen(x', y', width, height)
      ensures Pixel(fb[y * width + x := c], width, x', y') == if x' == x && y' == y then c else Pixel(fb, width, x', y')
    {
      CellInRange(x', y', width, height);
      if y' * width + x' == y * width + x { CellsDiffer(x, y, x', y', width); }
    }
  }

  lemma PaintOne(fb: seq<Rgba8>, was: seq<Rgba8>, q: Paint, width: int, height: int, x: int, y: int)
    requires TextureOk(q.tex) && OnScreen(x, y, width, height) && |fb| == width * height
    requires PaintedUpTo(fb, was, q, width, height, x, y)
    ensures 0 <= y * width + x < |fb|
    ensures PaintedUpTo(fb[y * width + x := PaintPixel(q, fb[y * width + x], x, y)], was, q, width, height, x + 1, y)
  {
    UpdatePixel(fb, width, height, x, y, PaintPixel(q, Pixel(fb, width, x, y), x, y));
  }

  /** Pixels outside the box are the same painted or not. */
  lemma SkipOutside(fb: seq<Rgba8>, was: seq<Rgba8>, q: Paint, width: int, height: int, x: int, y: int, x': int, y': int)
    requires TextureOk(q.tex) && width <= 0x7fff_ffff && height <= 0x7fff_ffff
    requires PaintedUpTo(fb, was, q, width, height, x, y)
    requires forall i, j :: OnScreen(i, j, width, height) && Before(i, j, x, y) != Before(i, j, x', y') ==>
               !InBox(Shape(q), i, j, width, height)
    ensures PaintedUpTo(fb, was, q, width, height, x', y')
  {
    forall i, j | OnScreen(i, j, width, height)
      ensures Pixel(fb, width, i, j) ==
                if Before(i, j, x', y') then PaintPixel(q, Pixel(was, width, i, j), i, j) else Pixel(was, width, i, j)
    {
      if Covers(Shape(q), Centre(i, j)) { ScanMissesNothing(Shape(q), i, j, width, height); }
    }
  }

  // ---------------------------------------------------------------- coverage

  ghost function CoveredPixels(t: Triangle, width: int, height: int): set<(int, int)> {
    set x, y | 0 <= x < width && 0 <= y < height && Covers(t, Centre(x, y)) :: (x, y)
  }

  ghost function CoveredBefore(t: Triangle, width: int, height: int, atX: int, atY: int): set<(int, int)> {
    set p | p in CoveredPixels(t, width, height) && Before(p.0, p.1, atX, atY)
  }

  lemma CountOne(t: Triangle, width: int, height: int, x: int, y: int)
    requires OnScreen(x, y, width, height)
    ensures |CoveredBefore(t, width, height, x + 1, y)| ==
            |CoveredBefore(t, width, height, x, y)| + if Covers(t, Centre(x, y)) then 1 else 0
  {
    var before := CoveredBefore(t, width, height, x, y);
    if Covers(t, Centre(x, y)) {
      assert (x, y) !in before;
      assert CoveredBefore(t, width, height, x + 1, y) == before + {(x, y)};
    } else {
      assert CoveredBefore(t, width, height, x + 1, y) == before;
    }
  }

  /** Scan positions between which no pixel of the box lies. */
  ghost predicate NothingBetween(t: Triangle, width: int, height: int, x: int, y: int, x': int, y': int) {
    forall i, j :: OnScreen(i, j, width, height) && InBox(t, i, j, width, height) ==>
      (Before(i, j, x, y) <==> Before(i, j, x', y'))
  }

  lemma SkipCount(t: Triangle, width: int, height: int, x: int, y: int, x': int, y': int)
    requires width <= 0x7fff_ffff && height <= 0x7fff_ffff && NothingBetween(t, width, height, x, y, x', y')
    ensures CoveredBefore(t, width, height, x, y) == CoveredBefore(t, width, height, x', y')
  {
    forall p | p in CoveredPixels(t, width, height)
      ensures Before(p.0, p.1, x, y) <==> Before(p.0, p.1, x', y')
    {
      ScanMissesNothing(t, p.0, p.1, width, height);
    }
  }

  /** How far a scan has got: the pixels before (x, y) are painted and counted. */
  ghost predicate Scanned(fb: seq<Rgba8>, was: seq<Rgba8>, coverage: nat, q: Paint, width: int, height: int, x: int, y: int)
    requires TextureOk(q.tex)
  {
    PaintedUpTo(fb, was, q, width, height, x, y) && coverage == |CoveredBefore(Shape(q), width, height, x, y)|
  }

  lemma SkipScanned(fb: seq<Rgba8>, was: seq<Rgba8>, coverage: nat, q: Paint, width: int, height: int,
                    x: int, y: int, x': int, y': int)
    requires TextureOk(q.tex) && width <= 0x7fff_ffff && height <= 0x7fff_ffff
    requires Scanned(fb, was, coverage, q, width, height, x, y) && NothingBetween(Shape(q), width, height, x, y, x', y')
    ensures Scanned(fb, was, coverage, q, width, height, x', y')
  {
    SkipOutside(fb, was, q, width, height, x, y, x', y');
    SkipCount(Shape(q), width, height, x, y, x', y');
  }

  lemma StartScan(fb: seq<Rgba8>, q: Paint, width: int, height: int)
    requires TextureOk(q.tex)
    ensures Scanned(fb, fb, 0, q, width, height, 0, 0)
  {
    assert CoveredBefore(Shape(q), width, height, 0, 0) == {};
  }

  lemma EndScan(fb: seq<Rgba8>, was: seq<Rgba8>, coverage: nat, q: Paint, width: int, height: int)
    requires TextureOk(q.tex) && Scanned(fb, was, coverage, q, width, height, 0, height)
    ensures Painted(fb, was, q, width, height) && coverage == |CoveredPixels(Shape(q), width, height)|
  {
    assert CoveredBefore(Shape(q), width, height, 0, height) == CoveredPixels(Shape(q), width, height);
  }

  /** One pixel of the box. */
  method PaintCell(fb: array<Rgba8>, width: int, height: int, q: Paint, x: int, y: int, count: nat, ghost was: seq<Rgba8>)
    returns (coverage: nat)
    requires TextureOk(q.tex) && OnScreen(x, y, width, height) && fb.Length == width * height
    requires Scanned(fb[..], was, count, q, width, height, x, y)
    modifies fb
    ensures Scanned(fb[..], was, coverage, q, width, height, x + 1, y)
  {
    PaintOne(fb[..], was, q, width, height, x, y);
    CountOne(Shape(q), width, height, x, y);
    var idx := y * width + x;
    ghost var now := fb[..];
    coverage := count;
    if Covers(Shape(q), Centre(x, y)) {
      fb[idx] := SrcOver(fb[idx], Source(q, Centre(x, y)));
      coverage := coverage + 1;
    }
    assert fb[..] == now[idx := PaintPixel(q, now[idx], x, y)];
  }

  /** One row of the box. */
  method ScanRow(fb: array<Rgba8>, width: int, height: int, q: Paint, y: int, count: nat, ghost was: seq<Rgba8>)
    returns (coverage: nat)
    requires TextureOk(q.tex) && 1 <= width <= 0x7fff_ffff && 1 <= height <= 0x7fff_ffff && fb.Length == width * height
    requires MinY(Shape(q)) <= y <= MaxY(Shape(q), height)
    requires Scanned(fb[..], was, count, q, width, height, 0, y)
    modifies fb
    ensures Scanned(fb[..], was, coverage, q, width, height, 0, y + 1)
  {
    hide Shape, Scanned;
    var t := Shape(q);
    var minX, maxX := MinX(t), MaxX(t, width);
    coverage := count;
    SkipScanned(fb[..], was, coverage, q, width, height, 0, y, minX, y);
    var x := minX;
    while x <= maxX
      invariant minX <= x && (x <= maxX + 1 || x == minX)
      invariant Scanned(fb[..], was, coverage, q, width, height, x, y)
    {
      ScanStaysInside(t, x, y, width, height);
      coverage := PaintCell(fb, width, height, q, x, y, coverage, was);
      x := x + 1;
    }
    SkipScanned(fb[..], was, coverage, q, width, height, x, y, 0, y + 1);
  }

  /** Scans the clipped bounding box; it comes to the same as testing every pixel. */
  method RasterizeTriangle(fb: array<Rgba8>, width: int, height: int, q: Paint) returns (coverage: nat)
    requires TextureOk(q.tex) && 1 <= width <= 0x7fff_ffff && 1 <= height <= 0x7fff_ffff && fb.Length == width * height
    modifies fb
    ensures Painted(fb[..], old(fb[..]), q, width, height)
    ensures coverage == |CoveredPixels(Shape(q), width, height)|
  {
    var t := Shape(q);
    ghost var was := fb[..];
    coverage := 0;
    if Edge(q.a.p, q.b.p, q.c.p) == 0.0 {
      assert CoveredPixels(t, width, height) == {};
      return;
    }
    var minY, maxY := MinY(t), MaxY(t, height);
    StartScan(was, q, width, height);
    SkipScanned(was, was, 0, q, width, height, 0, 0, 0, minY);
    var y := minY;
    while y <= maxY
      invariant minY <= y && (y <= maxY + 1 || y == minY)
      invariant Scanned(fb[..], was, coverage, q, width, height, 0, y)
    {
      coverage := ScanRow(fb, width, height, q, y, coverage, was);
      y := y + 1;
    }
    SkipScanned(fb[..], was, coverage, q, width, height, 0, y, 0, height);
    EndScan(fb[..], was, coverage, q, width, height);
  }

  // ---------------------------------------------------------------- texture coordinates

  /** An affine function of the position. */
  datatype Affine = Affine(k: real, dx: real, dy: real) {
    function At(p: Point): real { k + dx * p.x + dy * p.y }
  }

  lemma MixTimesArea(a: Point, b: Point, c: Point, fa: real, fb: real, fc: real, p: Point)
    requires Edge(a, b, c) != 0.0
    ensures Mix(a, b, c, fa, fb, fc, p) * Edge(a, b, c) == fa * Edge(b, c, p) + fb * Edge(c, a, p) + fc * Edge(a, b, p)
  {
    var area, inv := Edge(a, b, c), 1.0 / Edge(a, b, c);
    Unscale(fa, Edge(b, c, p), inv, area);
    Unscale(fb, Edge(c, a, p), inv, area);
    Unscale(fc, Edge(a, b, p), inv, area);
  }

  lemma Unscale(f: real, e: real, inv: real, area: real)
    requires inv * area == 1.0
    ensures f * (e * inv) * area == f * e
  {
    assert f * (e * inv) * area == f * e * (inv * area);
  }

  lemma WeighAffine(t: Triangle, f: Affine, p: Point)
    ensures f.At(t.v0) * Edge(t.v1, t.v2, p) + f.At(t.v1) * Edge(t.v2, t.v0, p) + f.At(t.v2) * Edge(t.v0, t.v1, p)
            == f.At(p) * Edge(t.v0, t.v1, t.v2)
  {
    hide Edge, Affine.At;
    var e0, e1, e2 := Edge(t.v1, t.v2, p), Edge(t.v2, t.v0, p), Edge(t.v0, t.v1, p);
    EdgesAdd(t, p);
    Weights(t, p);
    SumAffine(f, e0, e1, e2, t.v0, t.v1, t.v2, p);
  }

  lemma SumAffine(f: Affine, e0: real, e1: real, e2: real, a: Point, b: Point, c: Point, p: Point)
    requires e0 * (a.x - p.x) + e1 * (b.x - p.x) + e2 * (c.x - p.x) == 0.0
    requires e0 * (a.y - p.y) + e1 * (b.y - p.y) + e2 * (c.y - p.y) == 0.0
    ensures f.At(a) * e0 + f.At(b) * e1 + f.At(c) * e2 == f.At(p) * (e0 + e1 + e2)
  {
    var sx := e0 * (a.x - p.x) + e1 * (b.x - p.x) + e2 * (c.x - p.x);
    var sy := e0 * (a.y - p.y) + e1 * (b.y - p.y) + e2 * (c.y - p.y);
    assert f.At(a) * e0 + f.At(b) * e1 + f.At(c) * e2 == f.At(p) * (e0 + e1 + e2) + f.dx * sx + f.dy * sy;
  }

  lemma CancelArea(m: real, n: real, area: real)
    requires area != 0.0 && m * area == n * area
    ensures m == n
  {
  }

  /** Interpolation gives back every affine map of the plane, whatever the triangle: texture
      coordinates that agree with one map at the corners agree with it at every pixel. */
  lemma MixReproducesAffine(t: Triangle, f: Affine, p: Point)
    requires Edge(t.v0, t.v1, t.v2) != 0.0
    ensures Mix(t.v0, t.v1, t.v2, f.At(t.v0), f.At(t.v1), f.At(t.v2), p) == f.At(p)
  {
    hide Edge, Mix, Affine.At;
    var m := Mix(t.v0, t.v1, t.v2, f.At(t.v0), f.At(t.v1), f.At(t.v2), p);
    MixTimesArea(t.v0, t.v1, t.v2, f.At(t.v0), f.At(t.v1), f.At(t.v2), p);
    WeighAffine(t, f, p);
    CancelArea(m, f.At(p), Edge(t.v0, t.v1, t.v2));
  }

  predicate MappedBy(v: Vertex, u: Affine, w: Affine) { v.u == u.At(v.p) && v.v == w.At(v.p) }

  /** Hence the colour of a covered pixel depends on the map only, not on the triangle. */
  lemma SourceFollowsMap(q: Paint, u: Affine, w: Affine, p: Point)
    requires TextureOk(q.tex) && Covers(Shape(q), p)
    requires MappedBy(q.a, u, w) && MappedBy(q.b, u, w) && MappedBy(q.c, u, w)
    ensures Source(q, p) == Modulate(SampleNearest(q.tex, u.At(p), w.At(p)), q.tint)
  {
    var o := Ordered(q);
    EdgeTurn(q.a.p, q.b.p, q.c.p);
    MixReproducesAffine(Shape(o), u, p);
    MixReproducesAffine(Shape(o), w, p);
  }

  // ---------------------------------------------------------------- quads

  datatype Quad = Quad(v0: Vertex, v1: Vertex, v2: Vertex, v3: Vertex, tex: Texture, tint: Rgba8)

  function Half0(q: Quad): Paint { Paint(q.v0, q.v1, q.v2, q.tex, q.tint) }
  function Half1(q: Quad): Paint { Paint(q.v0, q.v2, q.v3, q.tex, q.tint) }

  /** p1 and p3 lie strictly on opposite sides of the diagonal p0p2. */
  predicate Proper(q: Quad) { Opposite(q.v0.p, q.v1.p, q.v2.p, q.v3.p) }

  predicate QuadCovers(q: Quad, p: Point) { Covers(Shape(Half0(q)), p) || Covers(Shape(Half1(q)), p) }

  ghost function QuadPixels(q: Quad, width: int, height: int): set<(int, int)> {
    set x, y | 0 <= x < width && 0 <= y < height && QuadCovers(q, Centre(x, y)) :: (x, y)
  }

  /** What a quad does to a pixel: it is composited at most once, with the colour of the triangle
      that covers it. */
  function QuadPixel(q: Quad, was: Rgba8, x: int, y: int): Rgba8
    requires TextureOk(q.tex)
  {
    var p := Centre(x, y);
    if Covers(Shape(Half0(q)), p) then SrcOver(was, Source(Half0(q), p))
    else if Covers(Shape(Half1(q)), p) then SrcOver(was, Source(Half1(q), p))
    else was
  }

  lemma BlendedOnce(q: Quad, was: Rgba8, x: int, y: int)
    requires TextureOk(q.tex) && Proper(q)
    ensures PaintPixel(Half1(q), PaintPixel(Half0(q), was, x, y), x, y) == QuadPixel(q, was, x, y)
  {
    NoOverlap(q.v0.p, q.v1.p, q.v2.p, q.v3.p, Centre(x, y));
  }

  lemma CountTwo(q: Quad, width: int, height: int)
    requires Proper(q)
    ensures |CoveredPixels(Shape(Half0(q)), width, height)| + |CoveredPixels(Shape(Half1(q)), width, height)|
            == |QuadPixels(q, width, height)|
  {
    var c0, c1 := CoveredPixels(Shape(Half0(q)), width, height), CoveredPixels(Shape(Half1(q)), width, height);
    forall p | p in c0
      ensures p !in c1
    {
      NoOverlap(q.v0.p, q.v1.p, q.v2.p, q.v3.p, Centre(p.0, p.1));
    }
    assert c0 !! c1;
    assert QuadPixels(q, width, height) == c0 + c1;
  }

  /** A quad with one texture map has no seam: both triangles paint the colours of that map. */
  lemma QuadFollowsMap(q: Quad, u: Affine, w: Affine, was: Rgba8, x: int, y: int)
    requires TextureOk(q.tex)
    requires MappedBy(q.v0, u, w) && MappedBy(q.v1, u, w) && MappedBy(q.v2, u, w) && MappedBy(q.v3, u, w)
    ensures var p := Centre(x, y);
            QuadPixel(q, was, x, y) == if QuadCovers(q, p) then
              SrcOver(was, Modulate(SampleNearest(q.tex, u.At(p), w.At(p)), q.tint)) else was
  {
    var p := Centre(x, y);
    if Covers(Shape(Half0(q)), p) { SourceFollowsMap(Half0(q), u, w, p); }
    if Covers(Shape(Half1(q)), p) { SourceFollowsMap(Half1(q), u, w, p); }
  }

  method RasterizeQuad(fb: array<Rgba8>, width: int, height: int, q: Quad) returns (coverage: nat)
    requires TextureOk(q.tex) && 1 <= width <= 0x7fff_ffff && 1 <= height <= 0x7fff_ffff && fb.Length == width * height
    modifies fb
    ensures forall x, y :: OnScreen(x, y, width, height) ==>
              var was := Pixel(old(fb[..]), width, x, y);
              && Pixel(fb[..], width, x, y) == PaintPixel(Half1(q), PaintPixel(Half0(q), was, x, y), x, y)
              && (Proper(q) ==> Pixel(fb[..], width, x, y) == QuadPixel(q, was, x, y))
    ensures coverage == |CoveredPixels(Shape(Half0(q)), width, height)| + |CoveredPixels(Shape(Half1(q)), width, height)|
    ensures Proper(q) ==> coverage == |QuadPixels(q, width, height)|
  {
    ghost var was := fb[..];
    var first := RasterizeTriangle(fb, width, height, Half0(q));
    var second := RasterizeTriangle(fb, width, height, Half1(q));
    coverage := first + second;
    if Proper(q) {
      CountTwo(q, width, height);
      forall x, y | OnScreen(x, y, width, height)
        ensures Pixel(fb[..], width, x, y) == QuadPixel(q, Pixel(was, width, x, y), x, y)
      {
        BlendedOnce(q, Pixel(was, width, x, y), x, y);
      }
    }
  }

  // ---------------------------------------------------------------- rectangles

  /** A rectangle from (l, t) to (r, b), with texture coordinates from (u0, v0) to (u1, v1). */
  function Rectangle(l: real, t: real, r: real, b: real, u0: real, v0: real, u1: real, v1: real,
                     tex: Texture, tint: Rgba8): Quad {
    Quad(Vertex(Point(l, t), u0, v0), Vertex(Point(r, t), u1, v0),
         Vertex(Point(r, b), u1, v1), Vertex(Point(l, b), u0, v1), tex, tint)
  }

  /** Straight from u0 at l to u1 at r. */
  function Slide(x: real, l: real, r: real, u0: real, u1: real): real
    requires l < r
  {
    u0 + (x - l) * ((u1 - u0) / (r - l))
  }

  lemma SlideEnds(l: real, r: real, u0: real, u1: real)
    requires l < r
    ensures Slide(l, l, r, u0, u1) == u0 && Slide(r, l, r, u0, u1) == u1
  {
    var w, d := r - l, u1 - u0;
    assert d / w * w == d;
  }

  /** A rectangle paints the pixels whose centres lie in it, the left and top sides included and the right
      and bottom ones not, each with the texel that its place in the rectangle falls on. */
  lemma RectanglePainted(l: real, t: real, r: real, b: real, u0: real, v0: real, u1: real, v1: real,
                         tex: Texture, tint: Rgba8, was: Rgba8, x: int, y: int)
    requires l < r && t < b && TextureOk(tex)
    ensures Proper(Rectangle(l, t, r, b, u0, v0, u1, v1, tex, tint))
    ensures var p := Centre(x, y);
            QuadPixel(Rectangle(l, t, r, b, u0, v0, u1, v1, tex, tint), was, x, y) ==
              if l <= p.x < r && t <= p.y < b
              then SrcOver(was, Modulate(SampleNearest(tex, Slide(p.x, l, r, u0, u1), Slide(p.y, t, b, v0, v1)), tint))
              else was
  {
    hide SrcOver, Modulate, SampleNearest, QuadPixel, Covers, Slide;
    var q := Rectangle(l, t, r, b, u0, v0, u1, v1, tex, tint);
    var u, w := AcrossMap(l, r, u0, u1), DownMap(t, b, v0, v1);
    SlideEnds(l, r, u0, u1);
    SlideEnds(t, b, v0, v1);
    MapsSlide(l, t, r, b, u0, v0, u1, v1);
    QuadFollowsMap(q, u, w, was, x, y);
    RectangleCovered(l, t, r, b, Centre(x, y));
    RectangleOpposite(l, t, r, b);
  }

  function AcrossMap(l: real, r: real, u0: real, u1: real): Affine
    requires l < r
  {
    var slope := (u1 - u0) / (r - l);
    Affine(u0 - l * slope, slope, 0.0)
  }

  function DownMap(t: real, b: real, v0: real, v1: real): Affine
    requires t < b
  {
    var slope := (v1 - v0) / (b - t);
    Affine(v0 - t * slope, 0.0, slope)
  }

  lemma MapsSlide(l: real, t: real, r: real, b: real, u0: real, v0: real, u1: real, v1: real)
    requires l < r && t < b
    ensures forall p: Point :: AcrossMap(l, r, u0, u1).At(p) == Slide(p.x, l, r, u0, u1)
    ensures forall p: Point :: DownMap(t, b, v0, v1).At(p) == Slide(p.y, t, b, v0, v1)
  {
  }

  const WHITE := Rgba(255, 255, 255, 255)

  /** A texture drawn at its own size, at whole coordinates and untinted: texel (x - l, y - t) is
      composited with pixel (x, y), and opaque texels are simply copied. */
  lemma SpriteIsCopied(l: int, t: int, tex: Texture, was: Rgba8, x: int, y: int)
    requires TextureOk(tex)
    ensures var q := Rectangle(l as real, t as real, (l + tex.width) as real, (t + tex.height) as real,
                               0.0, 0.0, tex.width as real, tex.height as real, tex, WHITE);
            if OnScreen(x - l, y - t, tex.width, tex.height) then
              var at := (y - t) * tex.width + (x - l);
              && 0 <= at < |tex.pixels|
              && QuadPixel(q, was, x, y) == SrcOver(was, tex.pixels[at])
              && (tex.pixels[at].a == 255 ==> QuadPixel(q, was, x, y) == tex.pixels[at])
            else QuadPixel(q, was, x, y) == was
  {
    hide SrcOver, Modulate, SampleNearest, QuadPixel, Slide;
    var w, h := tex.width, tex.height;
    var p := Centre(x, y);
    RectanglePainted(l as real, t as real, (l + w) as real, (t + h) as real, 0.0, 0.0, w as real, h as real, tex, WHITE,
                     was, x, y);
    PlainSlide(p.x, l, w);
    PlainSlide(p.y, t, h);
    if OnScreen(x - l, y - t, w, h) {
      TexelUnder(tex, p.x - l as real, p.y - t as real, x - l, y - t);
      var texel := tex.pixels[(y - t) * w + (x - l)];
      Untinted(texel);
      if texel.a == 255 { OpaqueSourceWins(was, texel); }
    }
  }

  lemma PlainSlide(x: real, l: int, w: int)
    requires w > 0
    ensures Slide(x, l as real, (l + w) as real, 0.0, w as real) == x - l as real
  {
    var d := w as real;
    assert (l + w) as real - l as real == d && d / d == 1.0;
  }

  lemma Untinted(c: Rgba8)
    ensures Modulate(c, WHITE) == c
  {
    hide Scaled;
    TintIsNearest(c.r, 255);
    TintIsNearest(c.g, 255);
    TintIsNearest(c.b, 255);
    TintIsNearest(c.a, 255);
  }

  // ---------------------------------------------------------------- runs of draws

  /** A pixel after a sequence of draws. */
  function PaintAll(draws: seq<Paint>, was: Rgba8, x: int, y: int): Rgba8
    requires forall q :: q in draws ==> TextureOk(q.tex)
  {
    if draws == [] then was else PaintAll(draws[1..], PaintPixel(draws[0], was, x, y), x, y)
  }

  /** Over any sequence of draws a pixel only becomes more opaque, and an opaque one stays so. */
  lemma {:induction false} AlphaNeverFalls(draws: seq<Paint>, was: Rgba8, x: int, y: int)
    requires forall q :: q in draws ==> TextureOk(q.tex)
    ensures was.a <= PaintAll(draws, was, x, y).a
  {
    hide SrcOver, Source, Covers;
    if draws != [] {
      var q := draws[0];
      var p := Centre(x, y);
      if Covers(Shape(q), p) { NeverFades(was, Source(q, p)); }
      AlphaNeverFalls(draws[1..], PaintPixel(q, was, x, y), x, y);
    }
  }
}
