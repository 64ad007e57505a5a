/** Addressing of LED matrices: rotation, tiles, corners, axes and line order composed into one LED number. */
module NeoMatrix {
  import opened Numbers
  import opened Option

  /** Which corner a strip enters at, whether its lines are columns, and whether they alternate direction. */
  datatype Order = Order(right: bool, bottom: bool, columns: bool, zigzag: bool)

  datatype Point = Point(x: nat, y: nat)

  predicate InGrid(p: Point, w: nat, h: nat) {
    p.x < w && p.y < h
  }

  // ---- One grid ----

  function Scale(o: Order, w: nat, h: nat): nat {
    if o.columns then h else w
  }

  /** The line a point lies on, counted from the entry corner. */
  function Major(o: Order, w: nat, h: nat, p: Point): nat
    requires InGrid(p, w, h)
  {
    var column := if o.right then w - 1 - p.x else p.x;
    var row := if o.bottom then h - 1 - p.y else p.y;
    if o.columns then column else row
  }

  /** The position on its line, counted from the side of the entry corner. */
  function Minor(o: Order, w: nat, h: nat, p: Point): nat
    requires InGrid(p, w, h)
  {
    var column := if o.right then w - 1 - p.x else p.x;
    var row := if o.bottom then h - 1 - p.y else p.y;
    if o.columns then row else column
  }

  /** Numbers along parallel lines of length `scale`; odd lines run backwards in a zigzag. */
  function LineNumber(major: nat, minor: nat, scale: nat, zigzag: bool): int {
    if zigzag && major % 2 == 1 then (major + 1) * scale - 1 - minor else major * scale + minor
  }

  function LineOf(i: nat, scale: nat): nat
    requires scale > 0
  {
    i / scale
  }

  function PositionOf(i: nat, scale: nat, zigzag: bool): (minor: nat)
    requires scale > 0
    ensures minor < scale
  {
    if zigzag && LineOf(i, scale) % 2 == 1 then scale - 1 - i % scale else i % scale
  }

  function Number(o: Order, w: nat, h: nat, p: Point): int
    requires InGrid(p, w, h)
  {
    LineNumber(Major(o, w, h, p), Minor(o, w, h, p), Scale(o, w, h), o.zigzag)
  }

  function Flip(v: nat, n: nat, flipped: bool): nat
    requires v < n
  {
    if flipped then n - 1 - v else v
  }

  /** The point with a given number. */
  function Locate(o: Order, w: nat, h: nat, i: nat): (p: Point)
    requires i < w * h
    ensures InGrid(p, w, h)
  {
    LineBounds(o, w, h, i);
    var scale := Scale(o, w, h);
    var major, minor := LineOf(i, scale), PositionOf(i, scale, o.zigzag);
    if o.columns then Point(Flip(major, w, o.right), Flip(minor, h, o.bottom))
    else Point(Flip(minor, w, o.right), Flip(major, h, o.bottom))
  }

  function Lines(o: Order, w: nat, h: nat): nat {
    if o.columns then w else h
  }

  // ---- Arithmetic of lines ----

  lemma QuotientIs(q: nat, r: nat, s: nat)
    requires r < s
    ensures (q * s + r) / s == q && (q * s + r) % s == r
  {
    var i := q * s + r;
    if i / s > q {
      MulMonotone(q + 1, i / s, s);
    } else if i / s < q {
      MulMonotone(i / s + 1, q, s);
    }
  }

  lemma LineNumberSplits(major: nat, minor: nat, scale: nat, zigzag: bool, lines: nat)
    requires minor < scale && major < lines
    ensures var i := LineNumber(major, minor, scale, zigzag);
            0 <= i < lines * scale && LineOf(i, scale) == major && PositionOf(i, scale, zigzag) == minor
  {
    var r := if zigzag && major % 2 == 1 then scale - 1 - minor else minor;
    assert LineNumber(major, minor, scale, zigzag) == major * scale + r;
    QuotientIs(major, r, scale);
    MulMonotone(major + 1, lines, scale);
  }

  lemma LineNumberJoins(i: nat, scale: nat, zigzag: bool, lines: nat)
    requires scale > 0 && i < lines * scale
    ensures LineOf(i, scale) < lines
    ensures LineNumber(LineOf(i, scale), PositionOf(i, scale, zigzag), scale, zigzag) == i
  {
    assert i == i / scale * scale + i % scale;
    if i / scale >= lines {
      MulMonotone(lines, i / scale, scale);
    }
  }

  lemma LineBounds(o: Order, w: nat, h: nat, i: nat)
    requires i < w * h
    ensures 0 < w && 0 < h
    ensures Lines(o, w, h) * Scale(o, w, h) == w * h
    ensures LineOf(i, Scale(o, w, h)) < Lines(o, w, h)
  {
    PositiveFactors(w, h);
    hide LineOf;
    LineNumberJoins(i, Scale(o, w, h), o.zigzag, Lines(o, w, h));
  }

  lemma PositiveFactors(w: nat, h: nat)
    requires w * h > 0
    ensures w > 0 && h > 0
  {}

  // ---- The numbering of one grid is a bijection onto [0, w * h) ----

  lemma NumberLocate(o: Order, w: nat, h: nat, p: Point)
    requires InGrid(p, w, h)
    ensures 0 <= Number(o, w, h, p) < w * h
    ensures Locate(o, w, h, Number(o, w, h, p)) == p
  {
    hide LineOf, PositionOf, LineNumber;
    LineNumberSplits(Major(o, w, h, p), Minor(o, w, h, p), Scale(o, w, h), o.zigzag, Lines(o, w, h));
    assert Lines(o, w, h) * Scale(o, w, h) == w * h;
  }

  lemma LocateNumber(o: Order, w: nat, h: nat, i: nat)
    requires i < w * h
    ensures Number(o, w, h, Locate(o, w, h, i)) == i
  {
    hide LineOf, PositionOf, LineNumber;
    LineBounds(o, w, h, i);
    LineNumberJoins(i, Scale(o, w, h), o.zigzag, Lines(o, w, h));
  }

  /** Without tiles, consecutive numbers of a zigzag are always neighbouring points. */
  lemma ZigzagNeighbours(o: Order, w: nat, h: nat, i: nat)
    requires o.zigzag && i + 1 < w * h
    ensures var p, q := Locate(o, w, h, i), Locate(o, w, h, i + 1);
            (p.x == q.x && (p.y == q.y + 1 || q.y == p.y + 1)) || (p.y == q.y && (p.x == q.x + 1 || q.x == p.x + 1))
  {
    hide PositionOf, LineOf;
    LineBounds(o, w, h, i);
    LineBounds(o, w, h, i + 1);
    NextOnLine(i, Scale(o, w, h));
  }

  lemma NextOnLine(i: nat, scale: nat)
    requires scale > 0
    ensures var m, n := LineOf(i, scale), LineOf(i + 1, scale);
            var a, b := PositionOf(i, scale, true), PositionOf(i + 1, scale, true);
            (m == n && (a == b + 1 || b == a + 1)) || (n == m + 1 && a == b)
  {
    var q, r := i / scale, i % scale;
    assert i == q * scale + r;
    if r + 1 < scale {
      QuotientIs(q, r + 1, scale);
    } else {
      QuotientIs(q + 1, 0, scale);
      assert i + 1 == (q + 1) * scale;
    }
  }

  // ---- Tiles ----

  /** The layout flags: the order inside a matrix and, if there are tiles, the order of the tiles. */
  datatype Layout = Layout(
    matrixWidth: nat, matrixHeight: nat, tilesX: nat, tilesY: nat, inner: Order, tiles: Order)

  predicate Tiled(l: Layout) { l.tilesX > 0 }

  /** The unrotated display size. */
  function Width(l: Layout): nat { if Tiled(l) then l.matrixWidth * l.tilesX else l.matrixWidth }

  function Height(l: Layout): nat { if Tiled(l) then l.matrixHeight * l.tilesY else l.matrixHeight }

  function LedCount(mW: nat, mH: nat, tX: nat, tY: nat): nat {
    if tX > 0 then mW * mH * (tX * tY) else mW * mH
  }

  function Pixels(l: Layout): nat {
    LedCount(l.matrixWidth, l.matrixHeight, l.tilesX, l.tilesY)
  }

  /** The display has at least one LED, and tiles in both directions or none. */
  predicate ValidLayout(l: Layout) {
    1 <= l.matrixWidth && 1 <= l.matrixHeight && (Tiled(l) <==> l.tilesY > 0)
  }

  function TileOf(l: Layout, p: Point): (t: Point)
    requires ValidLayout(l) && Tiled(l) && InGrid(p, Width(l), Height(l))
    ensures InGrid(t, l.tilesX, l.tilesY)
  {
    LineNumberJoins(p.x, l.matrixWidth, false, l.tilesX);
    LineNumberJoins(p.y, l.matrixHeight, false, l.tilesY);
    Point(LineOf(p.x, l.matrixWidth), LineOf(p.y, l.matrixHeight))
  }

  function WithinTile(l: Layout, p: Point): (q: Point)
    requires ValidLayout(l)
    ensures InGrid(q, l.matrixWidth, l.matrixHeight)
  {
    Point(PositionOf(p.x, l.matrixWidth, false), PositionOf(p.y, l.matrixHeight, false))
  }

  /** In a zigzag of tiles, every other line of tiles is mounted upside down. */
  function InnerOrder(l: Layout, tileLine: nat): Order {
    if l.tiles.zigzag && tileLine % 2 == 1 then l.inner.(right := !l.inner.right, bottom := !l.inner.bottom)
    else l.inner
  }

  /** The number of the first LED of a tile. */
  function TileStart(tile: int, l: Layout): int {
    tile * (l.matrixWidth * l.matrixHeight)
  }

  lemma TileStartJoins(tile: int, l: Layout, i: int)
    requires tile >= 0 && i >= 0
    ensures TileStart(tile, l) + i == LineNumber(tile, i, l.matrixWidth * l.matrixHeight, false)
  {}

  /** The LED number of an unrotated display point. */
  function Index(l: Layout, p: Point): int
    requires ValidLayout(l) && InGrid(p, Width(l), Height(l))
  {
    if Tiled(l) then
      var t := TileOf(l, p);
      var inner := InnerOrder(l, Major(l.tiles, l.tilesX, l.tilesY, t));
      TileStart(Number(l.tiles, l.tilesX, l.tilesY, t), l)
        + Number(inner, l.matrixWidth, l.matrixHeight, WithinTile(l, p))
    else Number(l.inner, l.matrixWidth, l.matrixHeight, p)
  }

  /** The unrotated display point of an LED number. */
  function PointAt(l: Layout, i: nat): (p: Point)
    requires ValidLayout(l) && i < Pixels(l)
    ensures InGrid(p, Width(l), Height(l))
  {
    if Tiled(l) then
      var size := l.matrixWidth * l.matrixHeight;
      PixelBounds(l, i);
      var t := Locate(l.tiles, l.tilesX, l.tilesY, LineOf(i, size));
      var inner := InnerOrder(l, Major(l.tiles, l.tilesX, l.tilesY, t));
      var q := Locate(inner, l.matrixWidth, l.matrixHeight, PositionOf(i, size, false));
      LineNumberSplits(t.x, q.x, l.matrixWidth, false, l.tilesX);
      LineNumberSplits(t.y, q.y, l.matrixHeight, false, l.tilesY);
      Point(LineNumber(t.x, q.x, l.matrixWidth, false), LineNumber(t.y, q.y, l.matrixHeight, false))
    else Locate(l.inner, l.matrixWidth, l.matrixHeight, i)
  }

  lemma PixelBounds(l: Layout, i: nat)
    requires ValidLayout(l) && Tiled(l) && i < Pixels(l)
    ensures l.matrixWidth * l.matrixHeight > 0
    ensures LineOf(i, l.matrixWidth * l.matrixHeight) < l.tilesX * l.tilesY
  {
    MulMonotone(1, l.matrixWidth, l.matrixHeight);
    LineNumberJoins(i, l.matrixWidth * l.matrixHeight, false, l.tilesX * l.tilesY);
  }

  lemma IndexPointAt(l: Layout, p: Point)
    requires ValidLayout(l) && InGrid(p, Width(l), Height(l))
    ensures 0 <= Index(l, p) < Pixels(l)
    ensures PointAt(l, Index(l, p)) == p
  {
    hide Number, Locate, LineOf, PositionOf, LineNumber, TileStart;
    if Tiled(l) {
      var size := l.matrixWidth * l.matrixHeight;
      var t, q := TileOf(l, p), WithinTile(l, p);
      var inner := InnerOrder(l, Major(l.tiles, l.tilesX, l.tilesY, t));
      NumberLocate(l.tiles, l.tilesX, l.tilesY, t);
      NumberLocate(inner, l.matrixWidth, l.matrixHeight, q);
      var tile := Number(l.tiles, l.tilesX, l.tilesY, t);
      TileStartJoins(tile, l, Number(inner, l.matrixWidth, l.matrixHeight, q));
      LineNumberSplits(tile, Number(inner, l.matrixWidth, l.matrixHeight, q), size, false, l.tilesX * l.tilesY);
      LineNumberJoins(p.x, l.matrixWidth, false, l.tilesX);
      LineNumberJoins(p.y, l.matrixHeight, false, l.tilesY);
    } else {
      NumberLocate(l.inner, l.matrixWidth, l.matrixHeight, p);
    }
  }

  lemma PointAtIndex(l: Layout, i: nat)
    requires ValidLayout(l) && i < Pixels(l)
    ensures Index(l, PointAt(l, i)) == i
  {
    hide Number, Locate, LineOf, PositionOf, LineNumber, TileStart;
    if Tiled(l) {
      var size := l.matrixWidth * l.matrixHeight;
      PixelBounds(l, i);
      var t := Locate(l.tiles, l.tilesX, l.tilesY, LineOf(i, size));
      var inner := InnerOrder(l, Major(l.tiles, l.tilesX, l.tilesY, t));
      var q := Locate(inner, l.matrixWidth, l.matrixHeight, PositionOf(i, size, false));
      LocateNumber(l.tiles, l.tilesX, l.tilesY, LineOf(i, size));
      LocateNumber(inner, l.matrixWidth, l.matrixHeight, PositionOf(i, size, false));
      LineNumberJoins(i, size, false, l.tilesX * l.tilesY);
      TileStartJoins(LineOf(i, size), l, PositionOf(i, size, false));
      LineNumberSplits(t.x, q.x, l.matrixWidth, false, l.tilesX);
      LineNumberSplits(t.y, q.y, l.matrixHeight, false, l.tilesY);
    } else {
      LocateNumber(l.inner, l.matrixWidth, l.matrixHeight, i);
    }
  }

  // ---- Rotation ----

  function VisibleWidth(l: Layout, rotation: nat): nat {
    if rotation % 2 == 1 then Height(l) else Width(l)
  }

  function VisibleHeight(l: Layout, rotation: nat): nat {
    if rotation % 2 == 1 then Width(l) else Height(l)
  }

  predicate Visible(l: Layout, rotation: nat, p: Point) {
    rotation < 4 && InGrid(p, VisibleWidth(l, rotation), VisibleHeight(l, rotation))
  }

  function Unrotate(l: Layout, rotation: nat, p: Point): (q: Point)
    requires Visible(l, rotation, p)
    ensures InGrid(q, Width(l), Height(l))
  {
    match rotation
    case 0 => p
    case 1 => Point(Width(l) - 1 - p.y, p.x)
    case 2 => Point(Width(l) - 1 - p.x, Height(l) - 1 - p.y)
    case _ => Point(p.y, Height(l) - 1 - p.x)
  }

  function Rotate(l: Layout, rotation: nat, q: Point): (p: Point)
    requires rotation < 4 && InGrid(q, Width(l), Height(l))
    ensures Visible(l, rotation, p)
  {
    match rotation
    case 0 => q
    case 1 => Point(q.y, Width(l) - 1 - q.x)
    case 2 => Point(Width(l) - 1 - q.x, Height(l) - 1 - q.y)
    case _ => Point(Height(l) - 1 - q.y, q.x)
  }

  /** The LED that shows a visible point. */
  function LedNumber(l: Layout, rotation: nat, p: Point): int
    requires ValidLayout(l) && Visible(l, rotation, p)
  {
    Index(l, Unrotate(l, rotation, p))
  }

  function PointOfLed(l: Layout, rotation: nat, i: nat): (p: Point)
    requires ValidLayout(l) && rotation < 4 && i < Pixels(l)
    ensures Visible(l, rotation, p)
  {
    Rotate(l, rotation, PointAt(l, i))
  }

  /** The wiring that the layout describes: for every size and every combination of rotation and layout flags, the
      visible grid maps one to one onto the LEDs 0 .. Pixels - 1. */
  lemma LedBijection(l: Layout, rotation: nat)
    requires ValidLayout(l) && rotation < 4
    ensures forall p :: Visible(l, rotation, p) ==>
              0 <= LedNumber(l, rotation, p) < Pixels(l)
              && PointOfLed(l, rotation, LedNumber(l, rotation, p)) == p
    ensures forall i: nat :: i < Pixels(l) ==> LedNumber(l, rotation, PointOfLed(l, rotation, i)) == i
  {
    hide Index, PointAt;
    forall p | Visible(l, rotation, p)
      ensures 0 <= LedNumber(l, rotation, p) < Pixels(l)
              && PointOfLed(l, rotation, LedNumber(l, rotation, p)) == p
    {
      IndexPointAt(l, Unrotate(l, rotation, p));
    }
    forall i: nat | i < Pixels(l) ensures LedNumber(l, rotation, PointOfLed(l, rotation, i)) == i {
      PointAtIndex(l, i);
    }
  }

  // ---- Stored sizes ----

  /** Assignment to a uint16_t. */
  function U16(n: int): (u: nat)
    ensures u < 0x1_0000
    ensures 0 <= n < 0x1_0000 ==> u == n
    ensures -0x1_0000 <= n < 0 ==> u == n + 0x1_0000
  {
    n % 0x1_0000
  }

  /** Assignment to an int16_t. */
  function I16(n: int): (i: int)
    ensures -0x8000 <= i < 0x8000
    ensures -0x8000 <= n < 0x8000 ==> i == n
    ensures 0x8000 <= n < 0x1_0000 ==> i < 0
  {
    (n + 0x8000) % 0x1_0000 - 0x8000
  }

  /** What the constructors can be given: tiles and tiled matrices have byte sizes, a single matrix any size; the
      number of LEDs fits in 16 bits. */
  predicate Constructible(l: Layout) {
    ValidLayout(l) && Pixels(l) <= 0xffff &&
    (Tiled(l) ==> l.matrixWidth <= 255 && l.matrixHeight <= 255 && l.tilesX <= 255 && l.tilesY <= 255)
  }

  /** The number of a point inside a matrix whose stored sizes are `bw` and `bh`. */
  function StoredNumber(o: Order, bw: nat, bh: nat, x: nat, y: nat): int {
    var column := if o.right then U16(bw - 1 - x) else x;
    var row := if o.bottom then U16(bh - 1 - y) else y;
    if o.columns then LineNumber(column, row, bh, o.zigzag) else LineNumber(row, column, bw, o.zigzag)
  }

  /** The LED number of an unrotated display point as computed from the stored sizes. */
  function StoredIndex(l: Layout, p: Point): int
    requires ValidLayout(l) && InGrid(p, Width(l), Height(l))
  {
    if Tiled(l) then Index(l, p)
    else StoredNumber(l.inner, l.matrixWidth % 256, l.matrixHeight % 256, p.x, p.y)
  }

  /** The display size as stored, before rotation. */
  function StoredWidth(l: Layout): int { I16(Width(l)) }

  function StoredHeight(l: Layout): int { I16(Height(l)) }

  /** The LED that drawing a visible point sets, if any. */
  function DrawnLed(l: Layout, rotation: nat, p: Point): (led: Option<nat>)
    requires Constructible(l) && Visible(l, rotation, p)
    ensures led.Some? ==> led.value < Pixels(l)
  {
    var w, h := StoredWidth(l), StoredHeight(l);
    var (vw, vh) := if rotation % 2 == 1 then (h, w) else (w, h);
    if p.x >= vw || p.y >= vh then None
    else
      var n := U16(StoredIndex(l, Unrotate(l, rotation, p)));
      if n < Pixels(l) then Some(n) else None
  }

  /** The sizes survive being stored: the display in 16 bits with a sign; of a single matrix, the byte of a longer
      side is never used, because no line starts from that side's far end and no line has that side's length. */
  predicate SizesSurvive(l: Layout) {
    Width(l) <= 0x7fff && Height(l) <= 0x7fff &&
    (!Tiled(l) ==>
       (l.matrixWidth > 255 ==> !l.inner.right && (l.inner.columns || l.matrixHeight == 1)) &&
       (l.matrixHeight > 255 ==> !l.inner.bottom && (!l.inner.columns || l.matrixWidth == 1)))
  }

  /** Every visible point sets an LED, and no two the same. */
  ghost predicate OneToOne(l: Layout, rotation: nat)
    requires Constructible(l)
  {
    (forall p :: Visible(l, rotation, p) ==> DrawnLed(l, rotation, p).Some?) &&
    (forall p, q :: Visible(l, rotation, p) && Visible(l, rotation, q) && p != q ==>
       DrawnLed(l, rotation, p) != DrawnLed(l, rotation, q))
  }

  lemma TwoLongSides(w: nat, h: nat)
    requires 256 <= w && 256 <= h
    ensures w * h > 0xffff
  {
    MulMonotone(256, w, h);
    MulMonotone(256, h, 256);
  }

  lemma OneSideShort(w: nat, h: nat)
    requires 255 < w && w * h <= 0xffff
    ensures h <= 255
  {
    if h > 255 {
      TwoLongSides(w, h);
    }
  }

  lemma StoredIsNumber(o: Order, w: nat, h: nat, p: Point)
    requires InGrid(p, w, h) && w <= 0x7fff && h <= 0x7fff
    requires w > 255 ==> h <= 255 && !o.right && (o.columns || h == 1)
    requires h > 255 ==> w <= 255 && !o.bottom && (!o.columns || w == 1)
    ensures StoredNumber(o, w % 256, h % 256, p.x, p.y) == Number(o, w, h, p)
  {
    hide LineNumber;
    LineZero(p.x, w % 256, o.zigzag);
    LineZero(p.x, w, o.zigzag);
    LineZero(p.y, h % 256, o.zigzag);
    LineZero(p.y, h, o.zigzag);
  }

  /** With sizes that survive, drawing follows the wiring. */
  lemma StoredIsIdeal(l: Layout, p: Point)
    requires Constructible(l) && SizesSurvive(l) && InGrid(p, Width(l), Height(l))
    ensures StoredIndex(l, p) == Index(l, p)
  {
    hide StoredNumber, Number, LineOf, PositionOf;
    if !Tiled(l) {
      if l.matrixWidth > 255 {
        OneSideShort(l.matrixWidth, l.matrixHeight);
      } else if l.matrixHeight > 255 {
        OneSideShort(l.matrixHeight, l.matrixWidth);
      }
      StoredIsNumber(l.inner, l.matrixWidth, l.matrixHeight, p);
    }
  }

  lemma DrawnIsIdeal(l: Layout, rotation: nat, p: Point)
    requires Constructible(l) && SizesSurvive(l) && Visible(l, rotation, p)
    ensures DrawnLed(l, rotation, p) == Some(LedNumber(l, rotation, p))
  {
    hide Index, StoredIndex, Pixels, Width, Height;
    StoredIsIdeal(l, Unrotate(l, rotation, p));
    IndexPointAt(l, Unrotate(l, rotation, p));
  }

  /** Exchanging the axes exchanges the flags. */
  function Transposed(o: Order): Order {
    Order(o.bottom, o.right, !o.columns, o.zigzag)
  }

  lemma StoredTransposed(o: Order, bw: nat, bh: nat, x: nat, y: nat)
    ensures StoredNumber(o, bw, bh, x, y) == StoredNumber(Transposed(o), bh, bw, y, x)
  {}

  /** Both points get an LED, and not the same one. */
  predicate Apart(o: Order, w: nat, h: nat, p: Point, q: Point) {
    var m, n := U16(StoredNumber(o, w % 256, h % 256, p.x, p.y)), U16(StoredNumber(o, w % 256, h % 256, q.x, q.y));
    m < w * h && n < w * h && (m == n ==> p == q)
  }

  /** A wide matrix whose byte width is used: some point gets no LED, or two get the same. */
  lemma WideFails(o: Order, w: nat, h: nat) returns (p: Point, q: Point)
    requires 255 < w && 1 <= h && w * h <= 0xffff && (o.right || (!o.columns && h >= 2))
    ensures InGrid(p, w, h) && InGrid(q, w, h) && !Apart(o, w, h, p, q)
  {
    OneSideShort(w, h);
    var bw := w % 256;
    hide LineNumber;
    if o.right {
      var far := o.columns && !o.zigzag;
      p := Point(bw, if o.bottom != far then h - 1 else 0);
      q := p;
      LastColumn(h, o.zigzag);
      LineZero(65535, bw, o.zigzag);
    } else {
      p := Point(bw, if o.bottom then h - 1 else 0);
      q := Point(if o.zigzag && bw > 0 then bw - 1 else 0, if o.bottom then h - 2 else 1);
      LineZero(bw, bw, o.zigzag);
      LineOne(q.x, bw, o.zigzag);
    }
  }

  lemma LineZero(minor: nat, scale: nat, zigzag: bool)
    ensures LineNumber(0, minor, scale, zigzag) == minor
  {}

  lemma LineOne(minor: nat, scale: nat, zigzag: bool)
    ensures LineNumber(1, minor, scale, zigzag) == if zigzag then 2 * scale - 1 - minor else scale + minor
  {}

  /** A column counter that has wrapped leads to the number 65535, which is no LED. */
  lemma LastColumn(h: nat, zigzag: bool)
    requires h > 0
    ensures U16(LineNumber(65535, if zigzag then 0 else h - 1, h, zigzag)) == 65535
  {
    assert 65536 * h - 1 == 65535 + 65536 * (h - 1);
  }

  lemma WideFailsEitherWay(l: Layout) returns (p: Point, q: Point)
    requires Constructible(l) && !Tiled(l) && Width(l) <= 0x7fff && Height(l) <= 0x7fff && !SizesSurvive(l)
    ensures InGrid(p, l.matrixWidth, l.matrixHeight) && InGrid(q, l.matrixWidth, l.matrixHeight)
    ensures !Apart(l.inner, l.matrixWidth, l.matrixHeight, p, q)
  {
    var o, w, h := l.inner, l.matrixWidth, l.matrixHeight;
    if w > 255 && (o.right || (!o.columns && h >= 2)) {
      p, q := WideFails(o, w, h);
    } else {
      var p', q' := WideFails(Transposed(o), h, w);
      p, q := Point(p'.y, p'.x), Point(q'.y, q'.x);
      StoredTransposed(o, w % 256, h % 256, p.x, p.y);
      StoredTransposed(o, w % 256, h % 256, q.x, q.y);
      hide StoredNumber;
    }
  }

  /** Exactly when drawing is one to one: if and only if the sizes survive being stored; then it follows the wiring. */
  lemma OneToOneExact(l: Layout, rotation: nat)
    requires Constructible(l) && rotation < 4
    ensures OneToOne(l, rotation) <==> SizesSurvive(l)
    ensures SizesSurvive(l) ==>
              forall p :: Visible(l, rotation, p) ==> DrawnLed(l, rotation, p) == Some(LedNumber(l, rotation, p))
  {
    if SizesSurvive(l) {
      SurvivesOneToOne(l, rotation);
    } else if Width(l) > 0x7fff || Height(l) > 0x7fff {
      NothingDrawn(l, rotation);
    } else {
      var p, q := WideFailsEitherWay(l);
      NotApartDrawn(l, rotation, p, q);
    }
  }

  lemma SurvivesOneToOne(l: Layout, rotation: nat)
    requires Constructible(l) && rotation < 4 && SizesSurvive(l)
    ensures OneToOne(l, rotation)
    ensures forall p :: Visible(l, rotation, p) ==> DrawnLed(l, rotation, p) == Some(LedNumber(l, rotation, p))
  {
    hide SizesSurvive, DrawnLed, Visible, LedNumber, PointOfLed, Pixels;
    LedBijection(l, rotation);
    forall p | Visible(l, rotation, p) ensures DrawnLed(l, rotation, p) == Some(LedNumber(l, rotation, p)) {
      DrawnIsIdeal(l, rotation, p);
    }
  }

  lemma NothingDrawn(l: Layout, rotation: nat)
    requires Constructible(l) && rotation < 4 && (Width(l) > 0x7fff || Height(l) > 0x7fff)
    ensures !OneToOne(l, rotation)
    ensures forall p :: Visible(l, rotation, p) ==> DrawnLed(l, rotation, p) == None
  {
    SidesFit(l);
    hide Width, Height, StoredIndex, Pixels;
    assert Visible(l, rotation, Point(0, 0));
  }

  /** No side is longer than the number of LEDs. */
  lemma SidesFit(l: Layout)
    requires Constructible(l)
    ensures 1 <= Width(l) <= 0xffff && 1 <= Height(l) <= 0xffff
  {
    var w, h, tx, ty := l.matrixWidth, l.matrixHeight, l.tilesX, l.tilesY;
    if Tiled(l) {
      MulMonotone(1, w, tx);
      MulMonotone(w, 255, tx);
      MulMonotone(tx, 255, 255);
      MulMonotone(1, h, ty);
      MulMonotone(h, 255, ty);
      MulMonotone(ty, 255, 255);
    } else {
      MulMonotone(1, w, h);
      MulMonotone(1, h, w);
    }
  }

  lemma NotApartDrawn(l: Layout, rotation: nat, p: Point, q: Point)
    requires Constructible(l) && rotation < 4 && !Tiled(l) && Width(l) <= 0x7fff && Height(l) <= 0x7fff
    requires InGrid(p, l.matrixWidth, l.matrixHeight) && InGrid(q, l.matrixWidth, l.matrixHeight)
    requires !Apart(l.inner, l.matrixWidth, l.matrixHeight, p, q)
    ensures !OneToOne(l, rotation)
  {
    hide StoredNumber;
    var a, b := Rotate(l, rotation, p), Rotate(l, rotation, q);
    assert Unrotate(l, rotation, a) == p && Unrotate(l, rotation, b) == q;
    DrawnSingle(l, rotation, a);
    DrawnSingle(l, rotation, b);
    hide DrawnLed;
    if DrawnLed(l, rotation, a).Some? && DrawnLed(l, rotation, b).Some? {
      assert DrawnLed(l, rotation, a) == DrawnLed(l, rotation, b) && a != b;
    }
  }

  lemma DrawnSingle(l: Layout, rotation: nat, a: Point)
    requires Constructible(l) && !Tiled(l) && Width(l) <= 0x7fff && Height(l) <= 0x7fff && Visible(l, rotation, a)
    ensures var p := Unrotate(l, rotation, a);
            var n := U16(StoredNumber(l.inner, l.matrixWidth % 256, l.matrixHeight % 256, p.x, p.y));
            DrawnLed(l, rotation, a) == if n < l.matrixWidth * l.matrixHeight then Some(n) else None
  {
    SingleMatrix(l, Unrotate(l, rotation, a));
    hide StoredNumber, StoredIndex, Pixels, Width, Height;
  }

  lemma SingleMatrix(l: Layout, p: Point)
    requires ValidLayout(l) && !Tiled(l) && InGrid(p, Width(l), Height(l))
    ensures Pixels(l) == l.matrixWidth * l.matrixHeight
    ensures StoredIndex(l, p) == StoredNumber(l.inner, l.matrixWidth % 256, l.matrixHeight % 256, p.x, p.y)
  {}

  /** A plain row by row matrix wider than 255: the first point that no longer fits the stored width shares its LED with
      the start of the next row. */
  lemma WideMatrixCollides(w: nat, h: nat, tiles: Order)
    requires 255 < w <= 0x7fff && 2 <= h && w * h <= 0xffff
    ensures var l := Layout(w, h, 0, 0, Order(false, false, false, false), tiles);
            var p, q := Point(w % 256, 0), Point(0, 1);
            Constructible(l) && Visible(l, 0, p) && Visible(l, 0, q) && DrawnLed(l, 0, p) == DrawnLed(l, 0, q) != None
  {
    var l := Layout(w, h, 0, 0, Order(false, false, false, false), tiles);
    OneSideShort(w, h);
    MulMonotone(2, h, w);
    DrawnSingle(l, 0, Point(w % 256, 0));
    DrawnSingle(l, 0, Point(0, 1));
  }

  // ---- The class ----

  function InnerFlags(kind: bv8): Order {
    Order(kind & 0x02 != 0, kind & 0x01 != 0, kind & 0x04 != 0, kind & 0x08 != 0)
  }

  function TileFlags(kind: bv8): Order {
    Order(kind & 0x20 != 0, kind & 0x10 != 0, kind & 0x40 != 0, kind & 0x80 != 0)
  }

  /** Where a strip starts and how it goes on: LED 0 is in the corner that bits 0 and 1 of the flags name (bottom,
      right), LED 1 next to it in its row, or, with bit 2, in its column, and the first line is followed by the next
      one from the same end or, with bit 3, back from the other. */
  lemma StripStarts(kind: bv8, w: nat, h: nat)
    requires 1 <= w && 1 <= h
    ensures var o := InnerFlags(kind);
            var right, bottom, columns, zigzag := kind & 2 != 0, kind & 1 != 0, kind & 4 != 0, kind & 8 != 0;
            var x, y := if right then w - 1 else 0, if bottom then h - 1 else 0;
            && Number(o, w, h, Point(x, y)) == 0
            && (!columns && w > 1 ==> Number(o, w, h, Point(if right then x - 1 else 1, y)) == 1)
            && (columns && h > 1 ==> Number(o, w, h, Point(x, if bottom then y - 1 else 1)) == 1)
            && (!columns && h > 1 ==>
                 Number(o, w, h, Point(x, if bottom then y - 1 else 1)) == if zigzag then 2 * w - 1 else w)
            && (columns && w > 1 ==>
                 Number(o, w, h, Point(if right then x - 1 else 1, y)) == if zigzag then 2 * h - 1 else h)
  {}

  /** The tiles follow one another in the same way, by bits 4 to 7. */
  lemma TilesStart(kind: bv8, w: nat, h: nat)
    requires 1 <= w && 1 <= h
    ensures var o := TileFlags(kind);
            var right, bottom, columns, zigzag := kind & 32 != 0, kind & 16 != 0, kind & 64 != 0, kind & 128 != 0;
            var x, y := if right then w - 1 else 0, if bottom then h - 1 else 0;
            && Number(o, w, h, Point(x, y)) == 0
            && (!columns && w > 1 ==> Number(o, w, h, Point(if right then x - 1 else 1, y)) == 1)
            && (columns && h > 1 ==> Number(o, w, h, Point(x, if bottom then y - 1 else 1)) == 1)
            && (!columns && h > 1 ==>
                 Number(o, w, h, Point(x, if bottom then y - 1 else 1)) == if zigzag then 2 * w - 1 else w)
            && (columns && w > 1 ==>
                 Number(o, w, h, Point(if right then x - 1 else 1, y)) == if zigzag then 2 * h - 1 else h)
  {}

  /** A tile takes as many consecutive LEDs as it has points. They start in the corner of the matrix flags, and on every
      other line of a zigzag of tiles in the corner opposite to it. */
  lemma TileBlock(l: Layout, t: Point)
    requires ValidLayout(l) && Tiled(l) && InGrid(t, l.tilesX, l.tilesY)
    ensures var flipped := l.tiles.zigzag && Major(l.tiles, l.tilesX, l.tilesY, t) % 2 == 1;
            var x := if l.inner.right != flipped then l.matrixWidth - 1 else 0;
            var y := if l.inner.bottom != flipped then l.matrixHeight - 1 else 0;
            var p := Point(t.x * l.matrixWidth + x, t.y * l.matrixHeight + y);
            && InGrid(p, Width(l), Height(l))
            && Index(l, p) == Number(l.tiles, l.tilesX, l.tilesY, t) * (l.matrixWidth * l.matrixHeight)
  {
    var flipped := l.tiles.zigzag && Major(l.tiles, l.tilesX, l.tilesY, t) % 2 == 1;
    var x := if l.inner.right != flipped then l.matrixWidth - 1 else 0;
    var y := if l.inner.bottom != flipped then l.matrixHeight - 1 else 0;
    var inner := InnerOrder(l, Major(l.tiles, l.tilesX, l.tilesY, t));
    assert Number(inner, l.matrixWidth, l.matrixHeight, Point(x, y)) == 0;
    InTile(t.x, x, l.matrixWidth, l.tilesX);
    InTile(t.y, y, l.matrixHeight, l.tilesY);
    hide Number, Major, InnerOrder;
  }

  lemma InTile(t: nat, x: nat, w: nat, n: nat)
    requires x < w && t < n
    ensures t * w + x < w * n && LineOf(t * w + x, w) == t && PositionOf(t * w + x, w, false) == x
  {
    QuotientIs(t, x, w);
    MulMonotone(t + 1, n, w);
  }

  /** How the display is turned: with rotation 1, 2, 3 the visible origin is the top right, bottom right and bottom left
      corner of the grid, and the visible x axis points down, left and up. */
  lemma Turned(l: Layout, rotation: nat, p: Point)
    requires ValidLayout(l) && Visible(l, rotation, Point(0, 0)) && Visible(l, rotation, p)
    ensures var w, h := Width(l), Height(l);
            var origin, q := Unrotate(l, rotation, Point(0, 0)), Unrotate(l, rotation, p);
            var right: int, down: int := p.x, p.y;
            && origin == [Point(0, 0), Point(w - 1, 0), Point(w - 1, h - 1), Point(0, h - 1)][rotation]
            && q.x - origin.x == [right, -down, -right, down][rotation]
            && q.y - origin.y == [down, right, -down, -right][rotation]
  {}

  lemma CornerFlips(kind: bv8)
    ensures (kind & 0x03) & 0x02 == kind & 0x02 && (kind & 0x03) & 0x01 == kind & 0x01
    ensures (((kind & 0x03) ^ 0x03) & 0x02 != 0) == !(kind & 0x02 != 0)
    ensures (((kind & 0x03) ^ 0x03) & 0x01 != 0) == !(kind & 0x01 != 0)
  {}

  lemma RemainderIs(x: nat, w: nat)
    requires w > 0
    ensures x - x / w * w == x % w == PositionOf(x, w, false) && LineOf(x, w) == x / w
  {}

  class Matrix {
    const kind: bv8
    const width: int
    const height: int
    const matrixWidth: nat
    const matrixHeight: nat
    const tilesX: nat
    const tilesY: nat
    const expandColor: nat -> nat
    const pixels: array<nat>
    var rotation: nat

    /** What the constructor was given. */
    ghost const layout: Layout

    ghost predicate Valid()
      reads this
    {
      && Constructible(layout) && rotation < 4 && pixels.Length == Pixels(layout)
      && width == StoredWidth(layout) && height == StoredHeight(layout)
      && matrixWidth == layout.matrixWidth % 256 && matrixHeight == layout.matrixHeight % 256
      && tilesX == layout.tilesX && tilesY == layout.tilesY
      && layout.inner == InnerFlags(kind) && layout.tiles == TileFlags(kind)
    }

    constructor Single(w: nat, h: nat, kind: bv8, expandColor: nat -> nat)
      requires 1 <= w && 1 <= h && w * h <= 0xffff
      ensures Valid() && rotation == 0 && fresh(pixels)
      ensures layout == Layout(w, h, 0, 0, InnerFlags(kind), TileFlags(kind))
    {
      this.kind, width, height, this.expandColor := kind, I16(w), I16(h), expandColor;
      matrixWidth, matrixHeight, tilesX, tilesY := w % 256, h % 256, 0, 0;
      pixels := new nat[LedCount(w, h, 0, 0)];
      rotation := 0;
      layout := Layout(w, h, 0, 0, InnerFlags(kind), TileFlags(kind));
    }

    constructor Tiles(mW: nat, mH: nat, tX: nat, tY: nat, kind: bv8, expandColor: nat -> nat)
      requires tX > 0 && Constructible(Layout(mW, mH, tX, tY, InnerFlags(kind), TileFlags(kind)))
      ensures Valid() && rotation == 0 && fresh(pixels)
      ensures layout == Layout(mW, mH, tX, tY, InnerFlags(kind), TileFlags(kind))
    {
      this.kind, width, height, this.expandColor := kind, I16(mW * tX), I16(mH * tY), expandColor;
      matrixWidth, matrixHeight, tilesX, tilesY := mW, mH, tX, tY;
      hide I16, LedCount;
      pixels := new nat[LedCount(mW, mH, tX, tY)];
      rotation := 0;
      layout := Layout(mW, mH, tX, tY, InnerFlags(kind), TileFlags(kind));
    }

    method SetPixelColor(n: int, c: nat)
      modifies pixels
      ensures U16(n) < pixels.Length ==> pixels[..] == old(pixels[..])[U16(n) := c]
      ensures U16(n) >= pixels.Length ==> pixels[..] == old(pixels[..])
    {
      if U16(n) < pixels.Length {
        pixels[U16(n)] := c;
      }
    }

    /** Points outside the visible grid are ignored; any other point sets its own LED, if it has one, and no other. */
    method DrawPixel(x0: int, y0: int, color: nat)
      requires Valid()
      modifies pixels
      ensures var on := x0 >= 0 && y0 >= 0 && Visible(layout, rotation, Point(x0, y0));
              && (!on ==> pixels[..] == old(pixels[..]))
              && (on ==> match DrawnLed(layout, rotation, Point(x0, y0))
                         case None => pixels[..] == old(pixels[..])
                         case Some(n) => n < pixels.Length && pixels[..] == old(pixels[..])[n := expandColor(color)])
    {
      hide StoredIndex, Width, Height, Pixels;
      SidesFit(layout);
      var visibleWidth, visibleHeight := width, height;
      if rotation % 2 == 1 {
        visibleWidth, visibleHeight := height, width;
      }
      if x0 < 0 || y0 < 0 || x0 >= visibleWidth || y0 >= visibleHeight {
        return;
      }
      var x, y := x0, y0;
      match rotation {
        case 0 =>
        case 1 => x, y := width - 1 - y, x;
        case 2 => x, y := width - 1 - x, height - 1 - y;
        case _ => x, y := y, height - 1 - x;
      }
      assert Point(x, y) == Unrotate(layout, rotation, Point(x0, y0));
      var n := LedOf(x, y);
      SetPixelColor(n, expandColor(color));
    }

    method LedOf(x: nat, y: nat) returns (n: int)
      requires Valid() && InGrid(Point(x, y), Width(layout), Height(layout))
      ensures n == StoredIndex(layout, Point(x, y))
    {
      hide StoredNumber, Index, Width, Height, Pixels;
      if tilesX > 0 {
        n := TiledLed(x, y);
      } else {
        CornerFlips(kind);
        n := PixelOffset(kind & 0x03, x, y);
      }
    }

    method TiledLed(x: nat, y: nat) returns (n: int)
      requires Valid() && tilesX > 0 && InGrid(Point(x, y), Width(layout), Height(layout))
      ensures n == Index(layout, Point(x, y))
    {
      hide Number, LineOf, PositionOf, StoredNumber, Pixels;
      CornerFlips(kind);
      var corner := kind & 0x03;
      var tile, upsideDown, px, py := TileNumber(x, y);
      if upsideDown {
        corner := corner ^ 0x03;
      }
      var tileOffset := tile * (matrixWidth * matrixHeight);
      StoredIsNumber(InnerFlags(kind).(right := corner & 0x02 != 0, bottom := corner & 0x01 != 0),
                     matrixWidth, matrixHeight, Point(px, py));
      var pixelOffset := PixelOffset(corner, px, py);
      n := tileOffset + pixelOffset;
    }

    /** The tile of a point, whether that tile is upside down, and the point within the tile. */
    method TileNumber(x: nat, y: nat) returns (tile: int, upsideDown: bool, px: nat, py: nat)
      requires Valid() && tilesX > 0 && InGrid(Point(x, y), Width(layout), Height(layout))
      ensures var t := TileOf(layout, Point(x, y));
              && Point(px, py) == WithinTile(layout, Point(x, y))
              && tile == Number(layout.tiles, tilesX, tilesY, t)
              && (upsideDown <==> layout.tiles.zigzag && Major(layout.tiles, tilesX, tilesY, t) % 2 == 1)
    {
      var minor := x / matrixWidth;
      var major := y / matrixHeight;
      px := x - minor * matrixWidth;
      py := y - major * matrixHeight;
      RemainderIs(x, matrixWidth);
      RemainderIs(y, matrixHeight);
      assert TileOf(layout, Point(x, y)) == Point(minor, major);
      tile, upsideDown := TileLine(minor, major);
    }

    method TileLine(tx: nat, ty: nat) returns (tile: int, upsideDown: bool)
      requires InGrid(Point(tx, ty), tilesX, tilesY)
      ensures var o := TileFlags(kind);
              && tile == Number(o, tilesX, tilesY, Point(tx, ty))
              && (upsideDown <==> o.zigzag && Major(o, tilesX, tilesY, Point(tx, ty)) % 2 == 1)
    {
      var minor, major := tx, ty;
      if kind & 0x20 != 0 {
        minor := tilesX - 1 - minor;
      }
      if kind & 0x10 != 0 {
        major := tilesY - 1 - major;
      }
      var majorScale := tilesX;
      if kind & 0x40 != 0 {
        major, minor := minor, major;
        majorScale := tilesY;
      }
      upsideDown := false;
      if kind & 0x80 == 0 {
        tile := major * majorScale + minor;
      } else if major % 2 == 1 {
        upsideDown := true;
        tile := (major + 1) * majorScale - 1 - minor;
      } else {
        tile := major * majorScale + minor;
      }
    }

    method PixelOffset(corner: bv8, x: nat, y: nat) returns (pixelOffset: int)
      ensures pixelOffset == StoredNumber(
        InnerFlags(kind).(right := corner & 0x02 != 0, bottom := corner & 0x01 != 0), matrixWidth, matrixHeight, x, y)
    {
      var right, bottom, columns, zigzag :=
        corner & 0x02 != 0, corner & 0x01 != 0, kind & 0x04 != 0, kind & 0x08 != 0;
      var minor := x;
      var major := y;
      if right {
        minor := U16(matrixWidth - 1 - minor);
      }
      if bottom {
        major := U16(matrixHeight - 1 - major);
      }
      var majorScale := matrixWidth;
      if columns {
        major, minor := minor, major;
        majorScale := matrixHeight;
      }
      hide LineNumber, U16;
      pixelOffset := LineOffset(major, minor, majorScale, zigzag);
    }

    static method LineOffset(major: nat, minor: nat, majorScale: nat, zigzag: bool) returns (offset: int)
      ensures offset == LineNumber(major, minor, majorScale, zigzag)
    {
      if !zigzag {
        offset := major * majorScale + minor;
      } else if major % 2 == 1 {
        var next: int := (major + 1) * majorScale;
        offset := next - 1 - minor;
      } else {
        offset := major * majorScale + minor;
      }
    }

    /** Every LED gets the colour. */
    method FillScreen(color: nat)
      requires Valid()
      modifies pixels
      ensures forall n :: 0 <= n < pixels.Length ==> pixels[n] == expandColor(color)
    {
      var c24 := expandColor(color);
      var i := 0;
      while i < pixels.Length
        invariant i <= pixels.Length
        invariant forall k :: 0 <= k < i ==> pixels[k] == c24
      {
        SetPixelColor(i, c24);
        assert forall k :: 0 <= k < i ==> pixels[k] == old(pixels[..])[k] || pixels[..][k] == c24;
        i := i + 1;
      }
    }
  }
}
