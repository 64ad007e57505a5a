/** The raster loops of Adafruit_GFX: midpoint circle and Bresenham line. */
module Gfx {
  import opened Numbers

  datatype Point = Point(x: int, y: int)

  type Canvas = map<Point, nat>

  predicate Fits16(n: int) {
    -0x8000 <= n < 0x8000
  }

  /** Assignment to an int16_t. */
  function Wrap16(n: int): (w: int)
    ensures Fits16(w) && (w - n) % 0x1_0000 == 0
    ensures Fits16(n) ==> w == n
  {
    (n + 0x8000) % 0x1_0000 - 0x8000
  }

  function Abs(a: int): nat {
    if a < 0 then -a else a
  }

  /** A square of this half width around the point has coordinates of 16 bits. */
  predicate Inside(x0: int, y0: int, n: nat) {
    Fits16(x0 - n) && Fits16(x0 + n) && Fits16(y0 - n) && Fits16(y0 + n)
  }

  function Paint(c: Canvas, s: set<Point>, color: nat): Canvas {
    c + map p | p in s :: color
  }

  /** The points of the set get the colour, all others keep theirs. */
  lemma PaintIs(c: Canvas, s: set<Point>, color: nat)
    ensures var d := Paint(c, s, color);
            d.Keys == c.Keys + s && forall p :: p in d ==> d[p] == if p in s then color else c[p]
  {}

  // ---- Circle ----

  /** y is the integer nearest to the square root of n: y - 1/2 < sqrt(n) < y + 1/2. */
  predicate NearestRoot(y: int, n: int) {
    0 <= y && y * y - y < n <= y * y + y
  }

  function Four(x0: int, y0: int, a: int, b: int): set<Point> {
    {Point(x0 + a, y0 + b), Point(x0 - a, y0 + b), Point(x0 + a, y0 - b), Point(x0 - a, y0 - b)}
  }

  lemma FourIs(x0: int, y0: int, a: int, b: int)
    ensures Four(x0, y0, a, b) ==
            {Point(x0 + a, y0 + b)} + {Point(x0 - a, y0 + b)} + {Point(x0 + a, y0 - b)} + {Point(x0 - a, y0 - b)}
  {}

  /** The eight mirror images of an octant point. */
  function Mirrors(x0: int, y0: int, x: int, y: int): set<Point> {
    Four(x0, y0, x, y) + Four(x0, y0, y, x)
  }

  /** The four points on the axes. */
  function Axes(x0: int, y0: int, r: int): set<Point> {
    {Point(x0, y0 + r)} + {Point(x0, y0 - r)} + {Point(x0 + r, y0)} + {Point(x0 - r, y0)}
  }

  /** The ideal circle: in each column of the first octant the row nearest to the true circle, mirrored. */
  ghost predicate OnCircle(x0: int, y0: int, r: int, p: Point) {
    exists x, y :: 0 <= x <= y && NearestRoot(y, r * r - x * x) && p in Mirrors(x0, y0, x, y)
  }

  /** The decision variable in closed form. */
  function Decision(x: int, y: int, r: int): int {
    (x + 1) * (x + 1) + y * y - y - r * r
  }

  lemma Successor(a: int)
    ensures (a + 1) * (a + 1) == a * a + 2 * a + 1
  {}

  lemma {:induction false} Square(a: int, b: int)
    requires 0 <= a <= b
    ensures a * a <= b * b && a * a + a <= b * b + b
    ensures 1 <= a ==> a * a - a <= b * b - b
    decreases b
  {
    if a < b {
      Square(a, b - 1);
      Successor(b - 1);
    }
  }

  lemma Rounds(y: int, z: int)
    requires 0 <= y < z
    ensures y * y + y <= z * z - z
  {
    Square(y + 1, z);
    Successor(y);
  }

  lemma RootUnique(y: int, z: int, n: int)
    requires NearestRoot(y, n) && NearestRoot(z, n)
    ensures y == z
  {
    if y < z {
      Rounds(y, z);
    } else if z < y {
      Rounds(z, y);
    }
  }

  /** One turn of the loop keeps the rounding, or steps over the diagonal onto the mirror of the last point. */
  lemma CircleStep(x: int, y: int, r: int)
    requires 0 <= x < y && NearestRoot(y, r * r - x * x)
    ensures Decision(x, y, r) < 0 ==> NearestRoot(y, r * r - (x + 1) * (x + 1))
    ensures Decision(x, y, r) >= 0 && x + 1 < y ==> NearestRoot(y - 1, r * r - (x + 1) * (x + 1))
    ensures 2 * (x - y) + 1 <= Decision(x, y, r) <= 2 * x
    ensures Decision(x + 1, y, r) == Decision(x, y, r) + 2 * x + 3
    ensures Decision(x + 1, y - 1, r) == Decision(x, y, r) + 2 * x + 3 - 2 * y + 2
  {
    Successor(x);
    Successor(x + 1);
    Successor(y - 1);
  }

  /** The points of the octant, as the loop steps through them. */
  function Octant(ys: seq<int>, x0: int, y0: int): set<Point> {
    if ys == [] then {} else Octant(ys[..|ys| - 1], x0, y0) + Mirrors(x0, y0, |ys| - 1, ys[|ys| - 1])
  }

  lemma {:induction false} OctantHas(ys: seq<int>, x0: int, y0: int, p: Point)
    ensures p in Octant(ys, x0, y0) <==> exists k :: 0 <= k < |ys| && p in Mirrors(x0, y0, k, ys[k])
  {
    hide Mirrors;
    if ys != [] {
      OctantHas(ys[..|ys| - 1], x0, y0, p);
    }
  }

  /** `ys` holds the rounded rows of columns 0..|ys|, none below the diagonal. */
  predicate Rows(ys: seq<int>, r: int) {
    forall k :: 0 <= k < |ys| ==> k <= ys[k] && NearestRoot(ys[k], r * r - k * k)
  }

  /** Nothing is left of the octant behind column |ys| - 1. */
  predicate Exhausted(ys: seq<int>, r: int)
    requires ys != []
  {
    var x, y := |ys| - 1, ys[|ys| - 1];
    x == y || (x == y - 1 && Decision(x, y, r) >= 0)
  }

  lemma NothingMissed(ys: seq<int>, r: int, k: int, y: int)
    requires ys != [] && Rows(ys, r) && Exhausted(ys, r) && |ys| <= k <= y
    ensures !NearestRoot(y, r * r - k * k)
  {
    var x, z := |ys| - 1, ys[|ys| - 1];
    assert NearestRoot(z, r * r - x * x);
    Square(x + 1, k);
    Square(z, y);
    if x == z {
      Successor(x);
      Rounds(z, y);
    }
  }

  /** What the loop has plotted when it ends is the ideal circle. */
  lemma OctantIsCircle(ys: seq<int>, x0: int, y0: int, r: int)
    requires ys != [] && Rows(ys, r) && Exhausted(ys, r)
    ensures forall p :: p in Octant(ys, x0, y0) <==> OnCircle(x0, y0, r, p)
  {
    forall p ensures p in Octant(ys, x0, y0) <==> OnCircle(x0, y0, r, p) {
      hide Mirrors, Octant;
      OctantHas(ys, x0, y0, p);
      if p in Octant(ys, x0, y0) {
        var k :| 0 <= k < |ys| && p in Mirrors(x0, y0, k, ys[k]);
        assert NearestRoot(ys[k], r * r - k * k);
      }
      if OnCircle(x0, y0, r, p) {
        var x, y :| 0 <= x <= y && NearestRoot(y, r * r - x * x) && p in Mirrors(x0, y0, x, y);
        if x >= |ys| {
          NothingMissed(ys, r, x, y);
        } else {
          RootUnique(y, ys[x], r * r - x * x);
        }
      }
    }
  }

  lemma PaintMore(c: Canvas, s: set<Point>, t: set<Point>, color: nat)
    ensures Paint(Paint(c, s, color), t, color) == Paint(c, s + t, color)
  {}

  lemma FirstColumn(x0: int, y0: int, r: int)
    requires 1 <= r
    ensures Rows([r], r) && Decision(0, r, r) == 1 - r
    ensures Octant([r], x0, y0) == Axes(x0, y0, r)
  {
    assert Octant([r], x0, y0) == Octant([], x0, y0) + Mirrors(x0, y0, 0, r);
  }

  lemma PaintFour(c: Canvas, p: Point, q: Point, s: Point, t: Point, color: nat)
    ensures Paint(Paint(Paint(Paint(c, {p}, color), {q}, color), {s}, color), {t}, color) ==
            Paint(c, {p} + {q} + {s} + {t}, color)
  {
    hide Paint;
    PaintMore(c, {p}, {q}, color);
    PaintMore(c, {p} + {q}, {s}, color);
    PaintMore(c, {p} + {q} + {s}, {t}, color);
  }

  lemma PaintAxes(c: Canvas, x0: int, y0: int, r: int, color: nat)
    ensures Paint(Paint(Paint(Paint(c, {Point(x0, y0 + r)}, color), {Point(x0, y0 - r)}, color),
                        {Point(x0 + r, y0)}, color), {Point(x0 - r, y0)}, color) == Paint(c, Axes(x0, y0, r), color)
  {
    PaintFour(c, Point(x0, y0 + r), Point(x0, y0 - r), Point(x0 + r, y0), Point(x0 - r, y0), color);
  }

  /** One turn of the loop adds a rounded column, or ends the octant with a step over the diagonal. */
  lemma Turn(ys: seq<int>, x: int, y: int, r: int, next: int)
    requires 0 <= x < y && |ys| == x + 1 && ys[x] == y && Rows(ys, r)
    requires next == if Decision(x, y, r) >= 0 then y - 1 else y
    ensures if x + 1 <= next then Rows(ys + [next], r) else next == x && Exhausted(ys, r)
    ensures 2 * (x - y) + 1 <= Decision(x, y, r) <= 2 * x
    ensures Decision(x + 1, next, r) == Decision(x, y, r) + 2 * x + 3 - if next < y then 2 * y - 2 else 0
  {
    CircleStep(x, y, r);
    hide Decision;
    assert x + 1 <= next ==> NearestRoot(next, r * r - (x + 1) * (x + 1));
  }

  lemma DiagonalReached(ys: seq<int>, x: int, r: int)
    requires 0 <= x && |ys| == x + 1 && ys[x] == x
    ensures Exhausted(ys, r)
  {}

  lemma OctantGrows(ys: seq<int>, y: int, x0: int, y0: int, c: Canvas, color: nat)
    ensures Paint(Paint(c, Octant(ys, x0, y0), color), Mirrors(x0, y0, |ys|, y), color) ==
            Paint(c, Octant(ys + [y], x0, y0), color)
  {
    hide Paint, Mirrors;
    assert (ys + [y])[..|ys|] == ys;
    PaintMore(c, Octant(ys, x0, y0), Mirrors(x0, y0, |ys|, y), color);
  }

  /** A step over the diagonal paints the last point again. */
  lemma PaintTwice(c: Canvas, ys: seq<int>, x0: int, y0: int, color: nat)
    requires ys != []
    ensures Paint(Paint(c, Octant(ys, x0, y0), color), Mirrors(x0, y0, ys[|ys| - 1], |ys| - 1), color) ==
            Paint(c, Octant(ys, x0, y0), color)
  {
    hide Paint, Four;
    var m := Mirrors(x0, y0, ys[|ys| - 1], |ys| - 1);
    PaintMore(c, Octant(ys, x0, y0), m, color);
    assert Octant(ys, x0, y0) + m == Octant(ys, x0, y0);
  }

  /** The last turn may go over the diagonal, to the point (y, y - 1). That point is mirrored onto one already drawn,
      but it is not always the nearest in its own column: exactly when r * r is 2 * y * y - 3 * y + 2. */
  lemma OverDiagonal(r: int, y: int)
    requires 1 <= y && NearestRoot(y, r * r - (y - 1) * (y - 1)) && Decision(y - 1, y, r) >= 0
    ensures NearestRoot(y - 1, r * r - y * y) <==> r * r != 2 * (y * y) - 3 * y + 2
  {
    Successor(y - 1);
  }

  /** Radius 2 is such a circle: (2, 1) is drawn, at distance 5 from a square of 4. */
  lemma OverDiagonalAtTwo()
    ensures NearestRoot(2, 2 * 2 - 1 * 1) && Decision(1, 2, 2) >= 0 && !NearestRoot(1, 2 * 2 - 2 * 2)
  {}

  // ---- Line ----

  /** How far the minor coordinate has moved at column k: k * dy / dx, rounded to the nearest integer, halves down. */
  function Offset(k: nat, dx: nat, dy: nat): (o: nat) {
    if dx == 0 then 0 else Quotient(k * dy + (dx - 1) / 2, dx)
  }

  /** n / d for natural numbers. */
  function Quotient(n: nat, d: nat): (q: nat)
    requires 0 < d
    ensures d * q <= n < d * q + d
  {
    if n < d then 0
    else
      var q := Quotient(n - d, d);
      assert d * (q + 1) == d * q + d;
      q + 1
  }

  lemma OffsetIs(k: nat, dx: nat, dy: nat, o: int)
    requires dx > 0 && 0 <= dx / 2 - k * dy + dx * o < dx
    ensures Offset(k, dx, dy) == o
  {
    var n := k * dy + (dx - 1) / 2;
    assert dx * o <= n < dx * o + dx;
    DivIs(n, dx, o);
  }

  lemma {:induction false} Gap(d: nat, z: int, q: int)
    requires z < q
    ensures d * z + d <= d * q
    decreases q - z
  {
    if z + 1 < q {
      Gap(d, z, q - 1);
    }
    assert d * q == d * (q - 1) + d;
  }

  lemma DivIs(n: nat, d: nat, q: int)
    requires d > 0 && d * q <= n < d * q + d
    ensures Quotient(n, d) == q
  {
    var z := Quotient(n, d);
    hide Quotient;
    if z < q {
      Gap(d, z, q);
    } else if q < z {
      Gap(d, q, z);
    }
  }

  /** Within half a unit of the ideal line, on every column. */
  lemma LineIsClose(k: nat, dx: nat, dy: nat)
    requires 0 < dx
    ensures -(dx as int) < 2 * (dx * Offset(k, dx, dy) - k * dy) + 1 <= dx
  {
    hide Quotient;
  }

  /** Exact at both ends, and between them. */
  lemma LineEnds(k: nat, dx: nat, dy: nat)
    requires k <= dx && dy <= dx
    ensures Offset(0, dx, dy) == 0 && Offset(dx, dx, dy) == dy && Offset(k, dx, dy) <= dy
  {
    if dx > 0 {
      assert 0 * dy == 0 && dx * 0 == 0;
      DivIs((dx - 1) / 2, dx, 0);
      DivIs(dx * dy + (dx - 1) / 2, dx, dy);
      NotBeyond(k, dx, dy);
    }
  }

  lemma NotBeyond(k: nat, dx: nat, dy: nat)
    requires k <= dx && 0 < dx
    ensures Offset(k, dx, dy) <= dy
  {
    LineIsClose(k, dx, dy);
    MulMonotone(k, dx, dy);
    var o := Offset(k, dx, dy);
    if dy < o {
      Gap(dx, dy, o);
    }
  }

  predicate Steep(a: Point, b: Point) {
    Abs(b.y - a.y) > Abs(b.x - a.x)
  }

  function Swap(p: Point): Point {
    Point(p.y, p.x)
  }

  /** The pixel of column k of a line that goes right from a to b. */
  function Column(a: Point, b: Point, k: nat): Point {
    var o := Offset(k, Abs(b.x - a.x), Abs(b.y - a.y));
    Point(a.x + k, if a.y < b.y then a.y + o else a.y - o)
  }

  function Columns(a: Point, b: Point, n: nat): set<Point> {
    set k | 0 <= k < n :: Column(a, b, k)
  }

  /** The pixels of a line that has been exchanged along its diagonal if it is steep. */
  function Turned(s: set<Point>, steep: bool): set<Point> {
    if steep then set p | p in s :: Swap(p) else s
  }

  /** The pixels of a line: one for each step along the major axis, from the end with the smaller coordinate. */
  function Line(a: Point, b: Point): set<Point> {
    if Steep(a, b) then Turned(Flat(Swap(a), Swap(b)), true) else Turned(Flat(a, b), false)
  }

  function Flat(a: Point, b: Point): set<Point> {
    if a.x > b.x then Columns(b, a, a.x - b.x + 1) else Columns(a, b, b.x - a.x + 1)
  }

  lemma PaintNothing(c: Canvas, a: Point, b: Point, steep: bool, color: nat)
    ensures Paint(c, Turned(Columns(a, b, 0), steep), color) == c
  {}

  lemma ColumnIs(a: Point, b: Point, k: nat)
    ensures Column(a, b, k) ==
            Point(a.x + k, a.y + (if a.y < b.y then 1 else -1) * Offset(k, Abs(b.x - a.x), Abs(b.y - a.y)))
  {}

  lemma OffsetStep(k: nat, dx: nat, dy: nat, o: int)
    requires dx > 0 ==> 0 <= dx / 2 - k * dy + dx * o < dx
    ensures dx > 0 ==> o == Offset(k, dx, dy)
    ensures k <= dx && dy <= dx ==> Offset(k, dx, dy) <= dy
  {
    if dx > 0 {
      OffsetIs(k, dx, dy, o);
    }
    if k <= dx && dy <= dx {
      LineEnds(k, dx, dy);
    }
  }

  lemma ColumnsGrow(c: Canvas, a: Point, b: Point, k: nat, steep: bool, color: nat)
    ensures var p := Column(a, b, k);
            Paint(Paint(c, Turned(Columns(a, b, k), steep), color), {if steep then Swap(p) else p}, color) ==
            Paint(c, Turned(Columns(a, b, k + 1), steep), color)
  {
    hide Paint, Column;
    var p := Column(a, b, k);
    var q := if steep then Swap(p) else p;
    assert Columns(a, b, k + 1) == Columns(a, b, k) + {p};
    assert Turned(Columns(a, b, k + 1), steep) == Turned(Columns(a, b, k), steep) + {q};
    PaintMore(c, Turned(Columns(a, b, k), steep), {q}, color);
  }

  lemma NextError(k: nat, dx: nat, dy: nat, o: int)
    ensures dx * (o + 1) == dx * o + dx && (k + 1) * dy == k * dy + dy
  {}

  /** The coordinate along the major axis. */
  function Along(steep: bool, p: Point): int {
    if steep then p.y else p.x
  }

  function Across(steep: bool, p: Point): int {
    if steep then p.x else p.y
  }

  /** The distance of p from the ideal line through a and b, measured across and multiplied by the length. */
  function Deviation(steep: bool, a: Point, b: Point, p: Point): int {
    (Along(steep, b) - Along(steep, a)) * (Across(steep, p) - Across(steep, a)) -
    (Along(steep, p) - Along(steep, a)) * (Across(steep, b) - Across(steep, a))
  }

  /** p lies between the ends, within half a pixel of the ideal line. */
  predicate Close(steep: bool, a: Point, b: Point, p: Point) {
    var length := Abs(Along(steep, b) - Along(steep, a));
    2 * Abs(Deviation(steep, a, b, p)) <= length &&
    Abs(Along(steep, p) - Along(steep, a)) <= length && Abs(Along(steep, p) - Along(steep, b)) <= length
  }

  /** A good raster of the line from a to b: it contains both ends, one pixel for every step along the major axis and
      no other, all of them close to the line. */
  ghost predicate Raster(s: set<Point>, steep: bool, a: Point, b: Point) {
    a in s && b in s && |s| == Abs(Along(steep, b) - Along(steep, a)) + 1 &&
    (forall p :: p in s ==> Close(steep, a, b, p)) &&
    (forall p, q :: p in s && q in s && Along(steep, p) == Along(steep, q) ==> p == q)
  }

  lemma {:induction false} ColumnsCount(a: Point, b: Point, n: nat)
    ensures |Columns(a, b, n)| == n
  {
    if n > 0 {
      ColumnsCount(a, b, n - 1);
      assert Columns(a, b, n) == Columns(a, b, n - 1) + {Column(a, b, n - 1)};
      assert Column(a, b, n - 1) !in Columns(a, b, n - 1);
    }
  }

  lemma ColumnClose(a: Point, b: Point, k: nat)
    requires a.x < b.x && a.x + k <= b.x && Abs(b.y - a.y) <= b.x - a.x
    ensures Close(false, a, b, Column(a, b, k))
  {
    var dx, dy := b.x - a.x, Abs(b.y - a.y);
    ColumnIs(a, b, k);
    LineIsClose(k, dx, dy);
    var o := Offset(k, dx, dy);
    hide Offset, Column;
    var p := Column(a, b, k);
    if a.y < b.y {
      assert Deviation(false, a, b, p) == dx * o - k * dy;
    } else {
      assert p == Point(a.x + k, a.y - o);
      Negated(dx, o);
      Negated(k, dy);
      assert Deviation(false, a, b, p) == -(dx * o - k * dy);
    }
  }

  lemma Negated(u: int, v: int)
    ensures u * (-v) == -(u * v)
  {}

  lemma ColumnsRaster(a: Point, b: Point)
    requires a.x < b.x && Abs(b.y - a.y) <= b.x - a.x
    ensures Raster(Columns(a, b, b.x - a.x + 1), false, a, b)
  {
    hide Close, Column, Columns, Offset;
    var dx := b.x - a.x;
    var s := Columns(a, b, dx + 1);
    ColumnEnds(a, b);
    ColumnIn(a, b, dx + 1, 0);
    ColumnIn(a, b, dx + 1, dx);
    ColumnsCount(a, b, dx + 1);
    forall p | p in s ensures a.x <= p.x && p == Column(a, b, p.x - a.x) && Close(false, a, b, p) {
      ColumnOf(a, b, dx + 1, p);
      ColumnClose(a, b, p.x - a.x);
    }
  }

  lemma ColumnEnds(a: Point, b: Point)
    requires a.x < b.x && Abs(b.y - a.y) <= b.x - a.x
    ensures Column(a, b, 0) == a && Column(a, b, b.x - a.x) == b
  {
    LineEnds(0, b.x - a.x, Abs(b.y - a.y));
    hide Offset;
  }

  lemma ColumnIn(a: Point, b: Point, n: nat, k: nat)
    requires k < n
    ensures Column(a, b, k) in Columns(a, b, n)
  {}

  lemma ColumnOf(a: Point, b: Point, n: nat, p: Point)
    requires p in Columns(a, b, n)
    ensures a.x <= p.x < a.x + n && p == Column(a, b, p.x - a.x)
  {
    hide Offset;
  }

  lemma CloseFromOtherEnd(a: Point, b: Point, p: Point)
    requires Close(false, b, a, p)
    ensures Close(false, a, b, p)
  {
    Opposite(b.x - a.x, p.y - a.y, p.x - a.x, b.y - a.y);
  }

  lemma Opposite(u: int, v: int, w: int, z: int)
    ensures (-u) * (v - z) - (w - u) * (-z) == -(u * v - w * z)
  {
    assert (-u) * (v - z) == -(u * v) + u * z;
    assert (w - u) * (-z) == -(w * z) + u * z;
  }

  lemma FlatRaster(a: Point, b: Point)
    requires !Steep(a, b)
    ensures Raster(Flat(a, b), false, a, b) && Flat(a, b) == Flat(b, a)
  {
    hide Columns;
    if a.x < b.x {
      ColumnsRaster(a, b);
    } else if a.x > b.x {
      ColumnsRaster(b, a);
      hide Close;
      forall p | p in Flat(a, b) ensures Close(false, a, b, p) {
        CloseFromOtherEnd(a, b, p);
      }
    } else {
      OnePixel(a);
    }
  }

  lemma OnePixel(a: Point)
    ensures Columns(a, a, 1) == {a}
  {
    assert Column(a, a, 0) == a;
  }

  lemma {:induction false} TurnedCount(s: set<Point>)
    ensures |Turned(s, true)| == |s|
    decreases s
  {
    if s != {} {
      var p :| p in s;
      TurnedCount(s - {p});
      assert Turned(s, true) == Turned(s - {p}, true) + {Swap(p)};
    }
  }

  lemma TurnedRaster(s: set<Point>, a: Point, b: Point)
    requires Raster(s, false, Swap(a), Swap(b))
    ensures Raster(Turned(s, true), true, a, b)
  {
    TurnedCount(s);
    var t := Turned(s, true);
    assert Swap(Swap(a)) == a && Swap(Swap(b)) == b;
    forall p | p in t ensures Swap(p) in s && Close(true, a, b, p) {
      assert Close(false, Swap(a), Swap(b), Swap(p));
    }
  }

  /** Any line is a good raster, and the same raster drawn from the other end. */
  lemma LineRaster(a: Point, b: Point)
    ensures Raster(Line(a, b), Steep(a, b), a, b) && Line(a, b) == Line(b, a)
  {
    hide Raster, Flat;
    if Steep(a, b) {
      FlatRaster(Swap(a), Swap(b));
      TurnedRaster(Flat(Swap(a), Swap(b)), a, b);
    } else {
      FlatRaster(a, b);
    }
  }

  class AdafruitGfx {
    var canvas: Canvas

    constructor ()
      ensures canvas == map[]
    {
      canvas := map[];
    }

    method DrawPixel(x: int, y: int, color: nat)
      requires Fits16(x) && Fits16(y)
      modifies this
      ensures canvas == Paint(old(canvas), {Point(x, y)}, color)
    {
      canvas := canvas[Point(x, y) := color];
    }

    method DrawFour(x0: int, y0: int, a: int, b: int, color: nat)
      requires Inside(x0, y0, Abs(a)) && Inside(x0, y0, Abs(b))
      modifies this
      ensures canvas == Paint(old(canvas), Four(x0, y0, a, b), color)
    {
      hide Paint;
      PaintFour(canvas, Point(x0 + a, y0 + b), Point(x0 - a, y0 + b),
                Point(x0 + a, y0 - b), Point(x0 - a, y0 - b), color);
      DrawPixel(x0 + a, y0 + b, color);
      DrawPixel(x0 - a, y0 + b, color);
      DrawPixel(x0 + a, y0 - b, color);
      DrawPixel(x0 - a, y0 - b, color);
      FourIs(x0, y0, a, b);
    }

    method DrawMirrors(x0: int, y0: int, x: int, y: int, color: nat)
      requires Inside(x0, y0, Abs(x)) && Inside(x0, y0, Abs(y))
      modifies this
      ensures canvas == Paint(old(canvas), Mirrors(x0, y0, x, y), color)
    {
      hide Paint, Four;
      PaintMore(canvas, Four(x0, y0, x, y), Four(x0, y0, y, x), color);
      DrawFour(x0, y0, x, y, color);
      DrawFour(x0, y0, y, x, color);
    }

    /** The octant the loop runs through, mirrored: exactly the ideal circle. A radius of at most 16383 keeps every
        intermediate value in 16 bits. */
    method DrawCircle(x0: int, y0: int, r: int, color: nat)
      requires Abs(r) <= 0x3fff && Inside(x0, y0, Abs(r))
      modifies this
      ensures exists s: set<Point> ::
                canvas == Paint(old(canvas), s, color) &&
                forall p :: p in s <==> if r >= 1 then OnCircle(x0, y0, r, p) else p in Axes(x0, y0, r)
    {
      hide Paint, Four, Octant, Decision, Mirrors, Axes, OnCircle, Rows, Exhausted;
      ghost var c, ys := canvas, [r];
      var f, ddFx, ddFy, x, y := 1 - r, 1, -2 * r, 0, r;
      PaintAxes(c, x0, y0, r, color);
      DrawPixel(x0, y0 + r, color);
      DrawPixel(x0, y0 - r, color);
      DrawPixel(x0 + r, y0, color);
      DrawPixel(x0 - r, y0, color);
      if r >= 1 {
        FirstColumn(x0, y0, r);
      }
      while x < y
        invariant r <= 0 ==> y <= x && canvas == Paint(c, Axes(x0, y0, r), color)
        invariant r >= 1 ==> 0 <= x <= r && 0 <= y <= r && ddFx == 2 * x + 1 && ddFy == -2 * y
        invariant r >= 1 ==> f == Decision(x, y, r) && Fits16(f) && Fits16(ddFx) && Fits16(ddFy)
        invariant r >= 1 ==> Rows(ys, r) && canvas == Paint(c, Octant(ys, x0, y0), color)
        invariant ys != []
        invariant r >= 1 ==> (if x <= y then |ys| == x + 1 && ys[x] == y else x == y + 1 && Exhausted(ys, r))
        decreases y - x
      {
        Turn(ys, x, y, r, if f >= 0 then y - 1 else y);
        if f >= 0 {
          y := y - 1;
          ddFy := ddFy + 2;
          f := f + ddFy;
        }
        x := x + 1;
        ddFx := ddFx + 2;
        f := f + ddFx;
        DrawMirrors(x0, y0, x, y, color);
        if x <= y {
          OctantGrows(ys, y, x0, y0, c, color);
          ys := ys + [y];
        } else {
          PaintTwice(c, ys, x0, y0, color);
        }
      }
      if r >= 1 {
        if x <= y {
          DiagonalReached(ys, x, r);
        }
        OctantIsCircle(ys, x0, y0, r);
      }
    }

    method DrawLine(a: Point, b: Point, color: nat)
      requires Fits16(a.x) && Fits16(a.y) && Fits16(b.x) && Fits16(b.y)
      requires Abs(b.x - a.x) <= 0x7fff && Abs(b.y - a.y) <= 0x7fff
      requires if Steep(a, b) then a.y < 0x7fff && b.y < 0x7fff else a.x < 0x7fff && b.x < 0x7fff
      modifies this
      ensures canvas == Paint(old(canvas), Line(a, b), color)
    {
      hide Paint, Columns, Turned, Column;
      var x0, y0, x1, y1 := a.x, a.y, b.x, b.y;
      var steep := Abs(y1 - y0) > Abs(x1 - x0);
      if steep {
        x0, y0 := y0, x0;
        x1, y1 := y1, x1;
      }
      if x0 > x1 {
        x0, x1 := x1, x0;
        y0, y1 := y1, y0;
      }
      DrawFlat(x0, y0, x1, y1, steep, color);
    }

    /** The loop of drawLine, from the left end to the right end. */
    method DrawFlat(x0: int, y0: int, x1: int, y1: int, steep: bool, color: nat)
      requires Fits16(x0) && Fits16(y0) && Fits16(x1 + 1) && Fits16(y1)
      requires 0 <= x1 - x0 <= 0x7fff && Abs(y1 - y0) <= x1 - x0
      modifies this
      ensures canvas == Paint(old(canvas), Turned(Columns(Point(x0, y0), Point(x1, y1), x1 - x0 + 1), steep), color)
    {
      hide Paint, Columns, Turned, Column, Offset;
      var dx, dy := x1 - x0, Abs(y1 - y0);
      var err := dx / 2;
      var ystep := if y0 < y1 then 1 else -1;
      var x, y := x0, y0;
      ghost var a, b, k, o := Point(x0, y0), Point(x1, y1), 0, 0;
      PaintNothing(canvas, a, b, steep, color);
      LineEnds(0, dx, dy);
      while x <= x1
        invariant x == x0 + k && 0 <= k <= dx + 1 && Fits16(x)
        invariant err == dx / 2 - k * dy + dx * o && 0 <= err <= dx && (dx > 0 ==> err < dx)
        invariant k <= dx ==> o == Offset(k, dx, dy) && y == y0 + ystep * o
        invariant Fits16(y) && canvas == Paint(old(canvas), Turned(Columns(a, b, k), steep), color)
        decreases x1 - x
      {
        LineEnds(k, dx, dy);
        ColumnIs(a, b, k);
        ColumnsGrow(old(canvas), a, b, k, steep, color);
        if steep {
          DrawPixel(y, x, color);
        } else {
          DrawPixel(x, y, color);
        }
        NextError(k, dx, dy, o);
        err := err - dy;
        assert Fits16(err);
        if err < 0 {
          y := Wrap16(y + ystep);
          err := err + dx;
          o := o + 1;
        }
        k := k + 1;
        OffsetStep(k, dx, dy, o);
        x := x + 1;
      }
    }
  }
}
