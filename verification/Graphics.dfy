/**
 The double-buffered 2D library.  `Layer`s say what each operation draws, independent of
 the clip; class `Gfx` holds the buffers, the clip and the pixel counter, and each of its
 drawing methods is proved to show the operation's layer through the current clip.
 */
module Graphics {
  import opened Arithmetic
  import opened Bytes
  import opened Canvas
  import opened Bits
  import opened Colors
  import opened Rasterizers

  // ---------------------------------------------------------------- what each shape covers

  ghost function RectPoints(x: int, y: int, w: int, h: int): Points {
    iset p: (int, int) | x <= p.0 < x + w && y <= p.1 < y + h
  }

  ghost function RowPair(x: int, y: int, y': int, w: int): Points {
    RectPoints(x, y, w, 1) + RectPoints(x, y', w, 1)
  }

  ghost function ColumnPair(x: int, x': int, y: int, h: int): Points {
    RectPoints(x, y, 1, h) + RectPoints(x', y, 1, h)
  }

  /** The four edges of a rectangle, as gfx_draw_rect walks them. */
  ghost function FramePoints(x: int, y: int, w: int, h: int): Points {
    RowPair(x, y, y + h - 1, w) + ColumnPair(x, x + w - 1, y, h)
  }

  /** They are the border of the rectangle, if it has one. */
  lemma FrameIsBorder(x: int, y: int, w: nat, h: nat, p: (int, int))
    requires w > 0 && h > 0
    ensures p in FramePoints(x, y, w, h) <==>
              x <= p.0 <= x + w - 1 && y <= p.1 <= y + h - 1 && (p.0 == x || p.0 == x + w - 1 || p.1 == y || p.1 == y + h - 1)
  {
  }

  ghost predicate OnLine(l: Line, n: nat, p: (int, int)) {
    exists k: nat :: k < n && LineAt(l, k) == p
  }

  /** The first n pixels of a line. */
  ghost function LinePoints(l: Line, n: nat): Points {
    iset p | OnLine(l, n, p)
  }

  /** A set with half of the eight reflections of (a, b) about a centre added. */
  ghost function WithTwo(s: Points, x: int, y: int, x': int, y': int): Points {
    s + iset{(x, y)} + iset{(x', y')}
  }

  ghost function WithFour(s: Points, cx: int, cy: int, a: int, b: int): Points {
    WithTwo(WithTwo(s, cx + a, cy + b, cx + b, cy + a), cx - b, cy + a, cx - a, cy + b)
  }

  /** The eight reflections of an octant point about a centre. */
  ghost function WithEight(s: Points, cx: int, cy: int, a: int, b: int): Points {
    WithFour(WithFour(s, cx, cy, a, b), cx, cy, -a, -b)
  }

  predicate IsReflection(cx: int, cy: int, a: int, b: int, p: (int, int)) {
    var u, v := p.0 - cx, p.1 - cy;
    ((u == a || u == -a) && (v == b || v == -b)) || ((u == b || u == -b) && (v == a || v == -a))
  }

  ghost predicate OnCircle(cx: int, cy: int, r: nat, n: int, p: (int, int)) {
    exists a, b :: OctantPoint(r, a, b) && b < n && IsReflection(cx, cy, a, b, p)
  }

  /** Rows 0..n-1 of the octant, reflected eight ways. */
  ghost function CirclePoints(cx: int, cy: int, r: nat, n: int): Points {
    iset p | OnCircle(cx, cy, r, n, p)
  }

  predicate InDisc(r: nat, dx: int, dy: int) {
    dx * dx + dy * dy <= r * r
  }

  /** The disc's pixels in the rows before dy and, in row dy, left of dx. */
  ghost function DiscPart(cx: int, cy: int, r: nat, dx: int, dy: int): Points {
    iset p: (int, int) | InDisc(r, p.0 - cx, p.1 - cy) && (p.1 - cy < dy || (p.1 - cy == dy && p.0 - cx < dx))
  }

  ghost function DiscPoints(cx: int, cy: int, r: nat): Points {
    iset p: (int, int) | InDisc(r, p.0 - cx, p.1 - cy)
  }

  lemma SquareOfNegative(a: int)
    ensures (-a) * (-a) == a * a
  {
  }

  /** A reflection has the squared distance of the point. */
  lemma ReflectionDistance(u: int, v: int, a: int, b: int)
    requires ((u == a || u == -a) && (v == b || v == -b)) || ((u == b || u == -b) && (v == a || v == -a))
    ensures u * u + v * v == a * a + b * b
  {
    SquareOfNegative(a);
    SquareOfNegative(b);
  }

  lemma OctantBehind(cx: int, cy: int, r: nat, p: (int, int)) returns (a: int, b: int)
    requires p in CirclePoints(cx, cy, r, r + 1)
    ensures OctantPoint(r, a, b) && IsReflection(0, 0, a, b, (p.0 - cx, p.1 - cy))
  {
    a, b :| OctantPoint(r, a, b) && b < r + 1 && IsReflection(cx, cy, a, b, p);
  }

  /** A circle lies in the disc of its radius. */
  lemma CircleInDisc(cx: int, cy: int, r: nat, p: (int, int))
    requires p in CirclePoints(cx, cy, r, r + 1)
    ensures p in DiscPoints(cx, cy, r)
  {
    var a, b := OctantBehind(cx, cy, r, p);
    OctantInDisc(r, a, b, p.0 - cx, p.1 - cy);
  }

  lemma OctantInDisc(r: nat, a: int, b: int, u: int, v: int)
    requires OctantPoint(r, a, b) && IsReflection(0, 0, a, b, (u, v))
    ensures InDisc(r, u, v)
  {
    OctantIsRightmost(r, a, b);
    ReflectionDistance(u, v, a, b);
  }

  /** And it reaches the radius: its four extreme pixels are on the circle. */
  lemma CircleReaches(cx: int, cy: int, r: nat, p: (int, int))
    requires p in {(cx + r, cy), (cx - r, cy), (cx, cy + r), (cx, cy - r)}
    ensures p in CirclePoints(cx, cy, r, r + 1)
  {
    CircleStart(r);
    assert OctantPoint(r, r, 0) && IsReflection(cx, cy, r, 0, p);
  }

  /** A PSF font: glyph bitmaps of `height` rows, most significant bit leftmost. */
  datatype Font = Font(width: nat, height: nat, glyphs: nat, bytesPerGlyph: nat, bytesPerRow: nat, data: seq<Byte>)

  predicate ValidFont(f: Font) {
    && f.glyphs > 0 && f.width <= 8 * f.bytesPerRow && f.height * f.bytesPerRow <= f.bytesPerGlyph
    && f.glyphs * f.bytesPerGlyph <= |f.data|
  }

  function GlyphIndex(f: Font, ch: Byte): nat {
    if ch >= f.glyphs then 0 else ch
  }

  lemma GlyphInData(f: Font, ch: Byte, gx: nat, gy: nat)
    requires ValidFont(f) && gx < f.width && gy < f.height
    ensures 0 <= GlyphIndex(f, ch) * f.bytesPerGlyph + gy * f.bytesPerRow + gx / 8 < |f.data|
  {
    var idx := GlyphIndex(f, ch);
    MulLe(idx + 1, f.glyphs, f.bytesPerGlyph);
    MulLe(gy + 1, f.height, f.bytesPerRow);
    MulNonNegative(idx, f.bytesPerGlyph);
    MulNonNegative(gy, f.bytesPerRow);
    assert (idx + 1) * f.bytesPerGlyph == idx * f.bytesPerGlyph + f.bytesPerGlyph;
    assert (gy + 1) * f.bytesPerRow == gy * f.bytesPerRow + f.bytesPerRow;
  }

  /** Is pixel (gx, gy) of a glyph set? */
  predicate GlyphBit(f: Font, ch: Byte, gx: int, gy: int)
    requires ValidFont(f)
  {
    0 <= gx < f.width && 0 <= gy < f.height &&
    (GlyphInData(f, ch, gx, gy);
     var byte := f.data[GlyphIndex(f, ch) * f.bytesPerGlyph + gy * f.bytesPerRow + gx / 8];
     ShiftRight(byte, 7 - gx % 8) % 2 == 1)
  }

  /** A number from its binary digits, most significant first. */
  function FromBits(b: seq<bool>): nat {
    if b == [] then 0 else 2 * FromBits(b[..|b| - 1]) + if b[|b| - 1] then 1 else 0
  }

  lemma {:induction false} DropBits(b: seq<bool>, n: nat)
    requires n <= |b|
    ensures ShiftRight(FromBits(b), n) == FromBits(b[..|b| - n])
    decreases n
  {
    if n == 0 {
      assert b[..|b|] == b;
    } else {
      DropBits(b, n - 1);
      var c := b[..|b| - (n - 1)];
      assert c[..|c| - 1] == b[..|b| - n];
    }
  }

  /** Digit `j` of an octet, counted from the left. */
  lemma LeftBit(b: seq<bool>, j: nat)
    requires j < |b| == 8
    ensures ShiftRight(FromBits(b), 7 - j) % 2 == 1 <==> b[j]
  {
    var c := b[..j + 1];
    DropBits(b, 7 - j);
    assert c[|c| - 1] == b[j];
    LastBit(FromBits(c[..|c| - 1]), b[j]);
  }

  lemma LastBit(n: nat, bit: bool)
    ensures (2 * n + if bit then 1 else 0) % 2 == 1 <==> bit
  {
  }

  /**
   The glyph of `ch`, glyph 0 if the font has none, is drawn as the picture `rows` that the
   font's octets spell, eight pixels each, leftmost pixel first.
   */
  lemma GlyphIsPicture(f: Font, ch: Byte, rows: seq<seq<bool>>, gx: nat, gy: nat)
    requires ValidFont(f) && gx < f.width && gy < f.height
    requires |rows| == f.height && |rows[gy]| == 8 * f.bytesPerRow
    requires var a := (if ch < f.glyphs then ch else 0) * f.bytesPerGlyph + gy * f.bytesPerRow;
             0 <= a && a + f.bytesPerRow <= |f.data|
             && forall k :: 0 <= k < f.bytesPerRow ==> f.data[a + k] == FromBits(rows[gy][8 * k..8 * k + 8])
    ensures GlyphBit(f, ch, gx, gy) <==> rows[gy][gx]
  {
    var k, j := gx / 8, gx % 8;
    var a := (if ch < f.glyphs then ch else 0) * f.bytesPerGlyph + gy * f.bytesPerRow;
    assert f.data[a + k] == FromBits(rows[gy][8 * k..8 * k + 8]);
    LeftBit(rows[gy][8 * k..8 * k + 8], j);
    GlyphInData(f, ch, gx, gy);
  }

  /** The pixels of a glyph at (cx, cy) in the rows before gy and, in row gy, left of gx. */
  ghost function GlyphPart(f: Font, ch: Byte, cx: int, cy: int, gx: int, gy: int): Points
    requires ValidFont(f)
  {
    iset p: (int, int) | GlyphBit(f, ch, p.0 - cx, p.1 - cy) && (p.1 - cy < gy || (p.1 - cy == gy && p.0 - cx < gx))
  }

  ghost function GlyphPoints(f: Font, ch: Byte, cx: int, cy: int): Points
    requires ValidFont(f)
  {
    GlyphPart(f, ch, cx, cy, 0, f.height)
  }

  const NEWLINE: Byte := 10

  /** Text with the pen at (cx, cy) and the left margin at x. */
  ghost function TextPoints(f: Font, s: seq<Byte>, x: int, cx: int, cy: int): Points
    requires ValidFont(f)
  {
    if s == [] then iset{}
    else if s[0] == NEWLINE then TextPoints(f, s[1..], x, x, cy + f.height)
    else GlyphPoints(f, s[0], cx, cy) + TextPoints(f, s[1..], x, cx + f.width, cy)
  }

  /** How many of the first `i` characters are line feeds, and how many have followed the last one. */
  function LineOf(s: seq<Byte>, i: nat): nat
    requires i <= |s|
  {
    if i == 0 then 0 else LineOf(s, i - 1) + if s[i - 1] == 10 then 1 else 0
  }

  function ColumnOf(s: seq<Byte>, i: nat): nat
    requires i <= |s|
  {
    if i == 0 || s[i - 1] == 10 then 0 else ColumnOf(s, i - 1) + 1
  }

  /** Character `i` of a text puts ink on `p`: its glyph stands in its line and column. */
  ghost predicate InkedBy(f: Font, s: seq<Byte>, x: int, y: int, i: nat, p: (int, int))
    requires ValidFont(f) && i < |s|
  {
    s[i] != 10 && p in GlyphPoints(f, s[i], x + ColumnOf(s, i) * f.width, y + LineOf(s, i) * f.height)
  }

  lemma {:induction false} TextFrom(f: Font, s: seq<Byte>, x: int, y: int, n: nat, p: (int, int))
    requires ValidFont(f) && n <= |s|
    ensures p in TextPoints(f, s[n..], x, x + ColumnOf(s, n) * f.width, y + LineOf(s, n) * f.height) <==>
              exists i: nat :: n <= i < |s| && InkedBy(f, s, x, y, i, p)
    decreases |s| - n
  {
    if n < |s| {
      TextFrom(f, s, x, y, n + 1, p);
      assert s[n..][1..] == s[n + 1..];
      NextPlace(f, s, x, y, n);
      assert InkedBy(f, s, x, y, n, p) <==>
        s[n] != 10 && p in GlyphPoints(f, s[n], x + ColumnOf(s, n) * f.width, y + LineOf(s, n) * f.height);
    }
  }

  lemma NextPlace(f: Font, s: seq<Byte>, x: int, y: int, n: nat)
    requires n < |s|
    ensures s[n] == 10 ==> x + ColumnOf(s, n + 1) * f.width == x && y + LineOf(s, n + 1) * f.height == y + LineOf(s, n) * f.height + f.height
    ensures s[n] != 10 ==> x + ColumnOf(s, n + 1) * f.width == x + ColumnOf(s, n) * f.width + f.width && LineOf(s, n + 1) == LineOf(s, n)
  {
    assert (ColumnOf(s, n) + 1) * f.width == ColumnOf(s, n) * f.width + f.width;
    assert (LineOf(s, n) + 1) * f.height == LineOf(s, n) * f.height + f.height;
  }

  /** A text inks exactly the glyphs of its characters, each at its line and column, line feeds excepted. */
  lemma TextIsGlyphs(f: Font, s: seq<Byte>, x: int, y: int, p: (int, int))
    requires ValidFont(f)
    ensures p in StringPoints(Some(f), s, x, y) <==> exists i: nat :: i < |s| && InkedBy(f, s, x, y, i, p)
  {
    TextFrom(f, s, x, y, 0, p);
    assert s[0..] == s;
  }

  ghost function StringPoints(font: Option<Font>, s: seq<Byte>, x: int, y: int): Points
    requires font.Some? ==> ValidFont(font.value)
  {
    if font.None? then iset{} else TextPoints(font.value, s, x, x, y)
  }

  /** The first `n` rows of a rectangle with one colour per row. */
  ghost function RowsLayer(x: int, y: int, w: int, inks: seq<nat>, n: nat): Layer
    requires n <= |inks|
  {
    imap p: (int, int) | x <= p.0 < x + w && y <= p.1 < y + n :: inks[p.1 - y]
  }

  /** The drawing operations a scene is made of. */
  datatype Op =
    | Pixel(x: int, y: int, color: nat)
    | Filled(x: int, y: int, w: nat, h: nat, color: nat)
    | Framed(x: int, y: int, w: nat, h: nat, color: nat)
    | Segment(l: Line, color: nat)
    | Circle(cx: int, cy: int, r: nat, color: nat)
    | Disc(cx: int, cy: int, r: nat, color: nat)
    | Text(x: int, y: int, str: seq<Byte>, color: nat)
    | Gradient(x: int, y: int, w: nat, h: nat, top: nat, bottom: nat)
    | Cleared(color: nat)

  /** An operation that ends: every one but a line that crosses the left or top edge. */
  predicate Drawable(op: Op) {
    op.Segment? ==> InReach(op.l) && SameSide(op.l)
  }

  /** What an operation draws, whatever the clip. */
  ghost function LayerOf(sc: Screen, f: Format, font: Option<Font>, op: Op): Layer
    requires font.Some? ==> ValidFont(font.value)
  {
    match op
    case Pixel(x, y, c) => Ink(iset{(x, y)}, Pack(f, c))
    case Filled(x, y, w, h, c) => Ink(RectPoints(x, y, w, h), Pack(f, c))
    case Framed(x, y, w, h, c) => Ink(FramePoints(x, y, w, h), Pack(f, c))
    case Segment(l, c) => Ink(LinePoints(l, Steps(l) + 1), Pack(f, c))
    case Circle(cx, cy, r, c) => Ink(CirclePoints(cx, cy, r, r + 1), Pack(f, c))
    case Disc(cx, cy, r, c) => Ink(DiscPoints(cx, cy, r), Pack(f, c))
    case Text(x, y, str, c) => Ink(StringPoints(font, str, x, y), Pack(f, c))
    case Gradient(x, y, w, h, top, bottom) => RowsLayer(x, y, w, GradientInks(f, h, top, bottom), h)
    case Cleared(c) => Ink(RectPoints(0, 0, sc.width, sc.height), Pack(f, c))
  }

  /** The operations of a scene laid over each other in order. */
  ghost function Scene(sc: Screen, f: Format, font: Option<Font>, ops: seq<Op>): Layer
    requires font.Some? ==> ValidFont(font.value)
    decreases |ops|
  {
    if ops == [] then imap[]
    else Scene(sc, f, font, ops[..|ops| - 1]) + LayerOf(sc, f, font, ops[|ops| - 1])
  }

  class Gfx {
    const sc: Screen
    const format: Format
    const back: array<nat>
    const front: array<nat>
    var clip: Rect
    var pxWritten: nat
    ghost var stores: nat      // stores into the back buffer since the counter was last drained

    ghost predicate Shape()
      reads this
    {
      && ValidScreen(sc)
      && back != front && back.Length == front.Length == RowStart(sc, sc.height)
      && 0 <= clip.x0 && 0 <= clip.y0 && clip.x1 <= sc.width && clip.y1 <= sc.height
    }

    /** The counter agrees with the stores made. */
    ghost predicate Valid()
      reads this
    {
      Shape() && pxWritten == stores % TWO64
    }

    /** The back buffer is `base` with `layer` drawn on it. */
    ghost predicate Drawn(base: seq<nat>, layer: Layer)
      reads this, back
    {
      Shows(sc, clip, base, back[..], layer)
    }

    /** The back buffer is `base` with `s` inked on it, and nothing else. */
    ghost predicate Inked(base: seq<nat>, s: Points, color: nat)
      reads this, back
    {
      Inks(sc, clip, base, back[..], s, color)
    }

    /** One store into the back buffer, on top of what has been inked since `base`. */
    method StorePixel(x: int, y: int, color: nat, ghost base: seq<nat>, ghost s: Points)
      requires Shape() && Open(sc, clip, x, y) && Inked(base, s, color)
      modifies back, this`stores
      ensures Inked(base, s + iset{(x, y)}, color)
      ensures stores == old(stores) + 1
    {
      ghost var before := back[..];
      InkStore(sc, clip, before, x, y, color);
      back[Index(sc, x, y)] := color;
      stores := stores + 1;
      assert back[..] == before[Index(sc, x, y) := color];
      InkUnion(sc, clip, base, before, back[..], s, iset{(x, y)}, color);
    }

    /** gfx_putpixel: refuses pixels off the screen or outside the clip. */
    method PutPixel(x: int, y: int, color: nat)
      requires Valid()
      modifies back, this`pxWritten, this`stores
      ensures Valid()
      ensures Inked(old(back[..]), iset{(x, y)}, Pack(format, color))
      ensures stores == old(stores) + if Open(sc, clip, x, y) then 1 else 0
    {
      ghost var before := back[..];
      if x < 0 || y < 0 || x >= sc.width || y >= sc.height
         || x < clip.x0 || x >= clip.x1 || y < clip.y0 || y >= clip.y1 {
        InkNone(sc, clip, before, iset{(x, y)}, Pack(format, color));
        return;
      }
      InkStore(sc, clip, before, x, y, Pack(format, color));
      back[Index(sc, x, y)] := Pack(format, color);
      assert back[..] == before[Index(sc, x, y) := Pack(format, color)];
      ModAdd(stores, 1, TWO64);
      pxWritten := (pxWritten + 1) % TWO64;
      stores := stores + 1;
    }

    /** A pixel on top of what has been inked in the same colour since `base`. */
    method Plot(x: int, y: int, color: nat, ghost base: seq<nat>, ghost s: Points)
      requires Valid() && Inked(base, s, Pack(format, color))
      modifies back, this`pxWritten, this`stores
      ensures Valid()
      ensures Inked(base, s + iset{(x, y)}, Pack(format, color))
    {
      ghost var before := back[..];
      PutPixel(x, y, color);
      InkUnion(sc, clip, base, before, back[..], s, iset{(x, y)}, Pack(format, color));
    }

    /** Two pixels one after the other. */
    method PlotTwo(x: int, y: int, x': int, y': int, color: nat, ghost base: seq<nat>, ghost s: Points)
      returns (ghost s': Points)
      requires Valid() && Inked(base, s, Pack(format, color))
      modifies back, this`pxWritten, this`stores
      ensures Valid()
      ensures s' == WithTwo(s, x, y, x', y') && Inked(base, s', Pack(format, color))
    {
      Plot(x, y, color, base, s);
      Plot(x', y', color, base, s + iset{(x, y)});
      s' := s + iset{(x, y)} + iset{(x', y')};
    }

    /** The end of the Bresenham loop body. */
    static method LineTurn(x: int, y: int, err: int, dx: int, dy: int, sx: int, sy: int)
      returns (x': int, y': int, err': int)
      ensures (x', y', err') == LoopTurn(dx, dy, sx, sy, x, y, err)
    {
      x', y', err' := x, y, err;
      var e2 := 2 * err;
      if e2 > -dy {
        err' := err' - dy;
        x' := x' + sx;
      }
      if e2 < dx {
        err' := err' + dx;
        y' := y' + sy;
      }
    }

    /** gfx_draw_line: the Bresenham loop, on lines for which it ends (LineTerminates). */
    method DrawLine(l: Line, color: nat)
      requires Valid() && InReach(l) && SameSide(l)
      modifies back, this`pxWritten, this`stores
      ensures Valid()
      ensures Inked(old(back[..]), LinePoints(l, Steps(l) + 1), Pack(format, color))
    {
      ghost var base := back[..];
      SetUp(l);
      var dx, dy := Span(l.x0, l.x1), Span(l.y0, l.y1);
      var sx, sy := Way(l.x0, l.x1), Way(l.y0, l.y1);
      var err := dx - dy;
      var x, y := l.x0, l.y0;
      ghost var n: nat := 0;
      LineStartStop(l, 0, x, y, err);
      InkNone(sc, clip, base, iset{}, Pack(format, color));
      assert LinePoints(l, 0) == iset{};
      while true
        invariant Valid()
        invariant AtPixel(l, n, x, y, err)
        invariant Inked(base, LinePoints(l, n), Pack(format, color))
        decreases Steps(l) - n
      {
        Plot(x, y, color, base, LinePoints(l, n));
        LineGrows(l, n, x, y, err);
        LineStartStop(l, n, x, y, err);
        ExitTest(l, n, x, y, err);
        if AtEnd(l, x, y) {
          break;
        }
        LineAdvance(l, n, x, y, err);
        x, y, err := LineTurn(x, y, err, dx, dy, sx, sy);
        n := n + 1;
      }
    }

    /** The inner loop of gfx_fill_rect. */
    method FillRow(x0: int, x1: int, y: int, color: nat)
      requires Shape()
      requires clip.x0 <= x0 <= x1 <= clip.x1 && clip.y0 <= y < clip.y1
      modifies back, this`stores
      ensures Inked(old(back[..]), RectPoints(x0, y, x1 - x0, 1), color)
      ensures stores == old(stores) + (x1 - x0)
    {
      ghost var base := back[..];
      var x := x0;
      assert RectPoints(x0, y, 0, 1) == iset{};
      InkNone(sc, clip, base, iset{}, color);
      while x < x1
        invariant x0 <= x <= x1
        invariant stores == old(stores) + (x - x0)
        invariant Inked(base, RectPoints(x0, y, x - x0, 1), color)
      {
        StorePixel(x, y, color, base, RectPoints(x0, y, x - x0, 1));
        RowGrowsBy(x0, x, y);
        x := x + 1;
      }
    }

    /** The two loops of gfx_fill_rect, over a rectangle inside the clip. */
    method FillRows(x0: int, y0: int, x1: int, y1: int, color: nat)
      requires Shape()
      requires clip.x0 <= x0 <= x1 <= clip.x1 && clip.y0 <= y0 <= y1 <= clip.y1
      modifies back, this`stores
      ensures Inked(old(back[..]), RectPoints(x0, y0, x1 - x0, y1 - y0), color)
      ensures stores == old(stores) + (x1 - x0) * (y1 - y0)
    {
      ghost var base := back[..];
      var y := y0;
      assert RectPoints(x0, y0, x1 - x0, 0) == iset{};
      InkNone(sc, clip, base, iset{}, color);
      while y < y1
        invariant y0 <= y <= y1
        invariant stores == old(stores) + (x1 - x0) * (y - y0)
        invariant Inked(base, RectPoints(x0, y0, x1 - x0, y - y0), color)
      {
        ghost var before := back[..];
        FillRow(x0, x1, y, color);
        InkUnion(sc, clip, base, before, back[..], RectPoints(x0, y0, x1 - x0, y - y0), RectPoints(x0, y, x1 - x0, 1), color);
        assert RectPoints(x0, y0, x1 - x0, y - y0) + RectPoints(x0, y, x1 - x0, 1) == RectPoints(x0, y0, x1 - x0, y + 1 - y0);
        assert (x1 - x0) * (y + 1 - y0) == (x1 - x0) * (y - y0) + (x1 - x0);
        y := y + 1;
      }
    }

    /** gfx_fill_rect: intersects with the clip first, so the loops run only over the pixels that are stored. */
    method FillRect(x: int, y: int, w: nat, h: nat, color: nat)
      requires Valid()
      modifies back, this`pxWritten, this`stores
      ensures Valid()
      ensures Inked(old(back[..]), RectPoints(x, y, w, h), Pack(format, color))
    {
      ghost var base := back[..];
      var x0, y0, x1, y1 := x, y, x + w, y + h;
      if x0 < clip.x0 { x0 := clip.x0; }
      if y0 < clip.y0 { y0 := clip.y0; }
      if x1 > clip.x1 { x1 := clip.x1; }
      if y1 > clip.y1 { y1 := clip.y1; }
      if x0 >= x1 || y0 >= y1 {
        InkNone(sc, clip, base, RectPoints(x, y, w, h), Pack(format, color));
        return;
      }
      FillRows(x0, y0, x1, y1, Pack(format, color));
      InkSame(sc, clip, base, back[..], RectPoints(x0, y0, x1 - x0, y1 - y0), RectPoints(x, y, w, h), Pack(format, color));
      MulNonNegative(x1 - x0, y1 - y0);
      ModAdd(old(stores), (x1 - x0) * (y1 - y0), TWO64);
      pxWritten := (pxWritten + (x1 - x0) * (y1 - y0)) % TWO64;
    }

    /** The horizontal edges of gfx_draw_rect. */
    method DrawRows(x: int, y: int, w: nat, y': int, color: nat)
      requires Valid()
      modifies back, this`pxWritten, this`stores
      ensures Valid()
      ensures Inked(old(back[..]), RowPair(x, y, y', w), Pack(format, color))
    {
      ghost var base := back[..];
      InkNone(sc, clip, base, iset{}, Pack(format, color));
      var i := 0;
      assert RowPair(x, y, y', 0) == iset{};
      while i < w
        invariant 0 <= i <= w && Valid()
        invariant Inked(base, RowPair(x, y, y', i), Pack(format, color))
      {
        ghost var s := PlotTwo(x + i, y, x + i, y', color, base, RowPair(x, y, y', i));
        RowPairGrows(x, y, y', i);
        i := i + 1;
      }
    }

    /** The vertical edges of gfx_draw_rect. */
    method DrawColumns(x: int, y: int, h: nat, x': int, color: nat)
      requires Valid()
      modifies back, this`pxWritten, this`stores
      ensures Valid()
      ensures Inked(old(back[..]), ColumnPair(x, x', y, h), Pack(format, color))
    {
      ghost var base := back[..];
      InkNone(sc, clip, base, iset{}, Pack(format, color));
      var i := 0;
      assert ColumnPair(x, x', y, 0) == iset{};
      while i < h
        invariant 0 <= i <= h && Valid()
        invariant Inked(base, ColumnPair(x, x', y, i), Pack(format, color))
      {
        ghost var s := PlotTwo(x, y + i, x', y + i, color, base, ColumnPair(x, x', y, i));
        ColumnPairGrows(x, x', y, i);
        i := i + 1;
      }
    }

    /** gfx_draw_rect: two horizontal and two vertical edges, pixel by pixel. */
    method DrawRect(x: int, y: int, w: nat, h: nat, color: nat)
      requires Valid()
      modifies back, this`pxWritten, this`stores
      ensures Valid()
      ensures Inked(old(back[..]), FramePoints(x, y, w, h), Pack(format, color))
    {
      ghost var base := back[..];
      DrawRows(x, y, w, y + h - 1, color);
      ghost var middle := back[..];
      DrawColumns(x, y, h, x + w - 1, color);
      ghost var s, t := RowPair(x, y, y + h - 1, w), ColumnPair(x, x + w - 1, y, h);
      InkUnion(sc, clip, base, middle, back[..], s, t, Pack(format, color));
    }

    /** gfx_clear. */
    method Clear(color: nat)
      requires Valid()
      modifies back, this`pxWritten, this`stores
      ensures Valid()
      ensures Inked(old(back[..]), RectPoints(0, 0, sc.width, sc.height), Pack(format, color))
    {
      FillRect(0, 0, sc.width, sc.height, color);
    }

    /** gfx_take_px_counter: the count since the last call, which is the number of stores modulo 2^64. */
    method TakePxCounter() returns (v: nat)
      requires Valid()
      modifies this`pxWritten, this`stores
      ensures Valid() && v == old(stores) % TWO64 && stores == 0
    {
      v := pxWritten;
      pxWritten := 0;
      stores := 0;
    }

    /** Half of the eight plots of the circle loop; the other half is the same with the signs flipped. */
    method PlotFour(cx: int, cy: int, x: int, y: int, color: nat, ghost base: seq<nat>, ghost s: Points)
      returns (ghost s': Points)
      requires Valid() && Inked(base, s, Pack(format, color))
      modifies back, this`pxWritten, this`stores
      ensures Valid()
      ensures s' == WithFour(s, cx, cy, x, y) && Inked(base, s', Pack(format, color))
    {
      ghost var half := PlotTwo(cx + x, cy + y, cx + y, cy + x, color, base, s);
      s' := PlotTwo(cx - y, cy + x, cx - x, cy + y, color, base, half);
    }

    /** The updates at the end of the circle loop. */
    static method CircleTurn(x: int, y: int, err: int) returns (x': int, y': int, err': int)
      ensures (x', y', err') == CircleNext(x, y, err)
    {
      x', y', err' := x, y, err;
      if err' <= 0 {
        y' := y' + 1;
        err' := err' + (2 * y' + 1);
      }
      if err' > 0 {
        x' := x' - 1;
        err' := err' - (2 * x' + 1);
      }
    }

    /** The plots of one turn of the circle loop. */
    method PlotEight(cx: int, cy: int, x: int, y: int, color: nat, ghost base: seq<nat>, ghost s: Points)
      returns (ghost s': Points)
      requires Valid() && Inked(base, s, Pack(format, color))
      modifies back, this`pxWritten, this`stores
      ensures Valid()
      ensures s' == WithEight(s, cx, cy, x, y) && Inked(base, s', Pack(format, color))
    {
      ghost var half := PlotFour(cx, cy, x, y, color, base, s);
      s' := PlotFour(cx, cy, -x, -y, color, base, half);
    }

    /** gfx_draw_circle. */
    method DrawCircle(cx: int, cy: int, r: nat, color: nat)
      requires Valid()
      modifies back, this`pxWritten, this`stores
      ensures Valid()
      ensures Inked(old(back[..]), CirclePoints(cx, cy, r, r + 1), Pack(format, color))
    {
      ghost var base := back[..];
      var x: int, y: int, err: int := r, 0, 0;
      InkNone(sc, clip, base, iset{}, Pack(format, color));
      assert CirclePoints(cx, cy, r, 0) == iset{};
      CircleStart(r);
      while x >= y
        invariant Valid()
        invariant CircleAt(r, x, y, err)
        invariant Inked(base, CirclePoints(cx, cy, r, y), Pack(format, color))
        decreases x - y
      {
        ghost var s := PlotEight(cx, cy, x, y, color, base, CirclePoints(cx, cy, r, y));
        CircleGrows(cx, cy, r, x, y, err);
        CircleStep(r, x, y, err);
        x, y, err := CircleTurn(x, y, err);
      }
      CircleComplete(cx, cy, r, x, y, err);
    }

    /** The test and plot in the body of gfx_fill_circle. */
    method DiscPixel(cx: int, cy: int, r: nat, dx: int, dy: int, color: nat, ghost base: seq<nat>)
      requires Valid() && Inked(base, DiscPart(cx, cy, r, dx, dy), Pack(format, color))
      modifies back, this`pxWritten, this`stores
      ensures Valid()
      ensures Inked(base, DiscPart(cx, cy, r, dx + 1, dy), Pack(format, color))
    {
      DiscNext(cx, cy, r, dx, dy);
      if dx * dx + dy * dy <= r * r {
        Plot(cx + dx, cy + dy, color, base, DiscPart(cx, cy, r, dx, dy));
      }
    }

    /** The inner loop of gfx_fill_circle. */
    method DiscLine(cx: int, cy: int, r: nat, dy: int, color: nat, ghost base: seq<nat>)
      requires Valid() && Inked(base, DiscPart(cx, cy, r, -(r as int), dy), Pack(format, color))
      modifies back, this`pxWritten, this`stores
      ensures Valid()
      ensures Inked(base, DiscPart(cx, cy, r, -(r as int), dy + 1), Pack(format, color))
    {
      var dx: int := 0 - r;
      while dx <= r
        invariant -(r as int) <= dx <= r + 1 && Valid()
        invariant Inked(base, DiscPart(cx, cy, r, dx, dy), Pack(format, color))
      {
        DiscPixel(cx, cy, r, dx, dy, color, base);
        dx := dx + 1;
      }
      DiscRow(cx, cy, r, dy);
    }

    /** gfx_fill_circle. */
    method FillCircle(cx: int, cy: int, r: nat, color: nat)
      requires Valid()
      modifies back, this`pxWritten, this`stores
      ensures Valid()
      ensures Inked(old(back[..]), DiscPoints(cx, cy, r), Pack(format, color))
    {
      ghost var base := back[..];
      var dy: int := 0 - r;
      InkNone(sc, clip, base, iset{}, Pack(format, color));
      DiscStart(cx, cy, r);
      while dy <= r
        invariant -(r as int) <= dy <= r + 1 && Valid()
        invariant Inked(base, DiscPart(cx, cy, r, -(r as int), dy), Pack(format, color))
      {
        DiscLine(cx, cy, r, dy, color, base);
        dy := dy + 1;
      }
      DiscEnd(cx, cy, r);
    }

    /** The test and plot in the body of the glyph loops. */
    method GlyphPixel(f: Font, ch: Byte, cx: int, cy: int, gx: int, gy: int, color: nat, ghost base: seq<nat>, ghost s: Points)
      requires Valid() && ValidFont(f) && Inked(base, s + GlyphPart(f, ch, cx, cy, gx, gy), Pack(format, color))
      modifies back, this`pxWritten, this`stores
      ensures Valid()
      ensures Inked(base, s + GlyphPart(f, ch, cx, cy, gx + 1, gy), Pack(format, color))
    {
      GlyphNext(f, ch, cx, cy, gx, gy, s);
      if GlyphBit(f, ch, gx, gy) {
        Plot(cx + gx, cy + gy, color, base, s + GlyphPart(f, ch, cx, cy, gx, gy));
      }
    }

    /** One glyph of gfx_draw_string. */
    method DrawGlyph(f: Font, ch: Byte, cx: int, cy: int, color: nat, ghost base: seq<nat>, ghost s: Points)
      requires Valid() && ValidFont(f) && Inked(base, s, Pack(format, color))
      modifies back, this`pxWritten, this`stores
      ensures Valid()
      ensures Inked(base, s + GlyphPoints(f, ch, cx, cy), Pack(format, color))
    {
      var gy := 0;
      assert s + GlyphPart(f, ch, cx, cy, 0, 0) == s;
      while gy < f.height
        invariant 0 <= gy <= f.height && Valid()
        invariant Inked(base, s + GlyphPart(f, ch, cx, cy, 0, gy), Pack(format, color))
      {
        var gx := 0;
        while gx < f.width
          invariant 0 <= gx <= f.width && Valid()
          invariant Inked(base, s + GlyphPart(f, ch, cx, cy, gx, gy), Pack(format, color))
        {
          GlyphPixel(f, ch, cx, cy, gx, gy, color, base, s);
          gx := gx + 1;
        }
        GlyphRow(f, ch, cx, cy, gy, s);
        gy := gy + 1;
      }
    }

    /** One turn of the loop of gfx_draw_string. */
    method DrawChar(f: Font, str: seq<Byte>, i: nat, x: int, ghost y: int, cx: int, cy: int, color: nat,
                    ghost base: seq<nat>, ghost s: Points)
      returns (cx': int, cy': int, ghost s': Points)
      requires Valid() && ValidFont(f) && i < |str|
      requires Inked(base, s, Pack(format, color)) && TextAt(f, str, i, x, y, cx, cy, s)
      modifies back, this`pxWritten, this`stores
      ensures Valid()
      ensures Inked(base, s', Pack(format, color)) && TextAt(f, str, i + 1, x, y, cx', cy', s')
    {
      TextNext(f, str, i, x, y, cx, cy, s);
      if str[i] == NEWLINE {
        cx', cy', s' := x, cy + f.height, s;
      } else {
        DrawGlyph(f, str[i], cx, cy, color, base, s);
        cx', cy', s' := cx + f.width, cy, s + GlyphPoints(f, str[i], cx, cy);
      }
    }

    /** gfx_draw_string; without a loaded font nothing is drawn. */
    method DrawString(font: Option<Font>, x: int, y: int, str: seq<Byte>, color: nat)
      requires Valid() && (font.Some? ==> ValidFont(font.value))
      modifies back, this`pxWritten, this`stores
      ensures Valid()
      ensures Inked(old(back[..]), StringPoints(font, str, x, y), Pack(format, color))
    {
      ghost var base := back[..];
      InkNone(sc, clip, base, iset{}, Pack(format, color));
      if font.None? {
        return;
      }
      var f := font.value;
      var cx, cy, i := x, y, 0;
      ghost var s: Points := iset{};
      TextStart(f, str, x, y);
      while i < |str|
        invariant 0 <= i <= |str| && Valid()
        invariant Inked(base, s, Pack(format, color))
        invariant TextAt(f, str, i, x, y, cx, cy, s)
      {
        cx, cy, s := DrawChar(f, str, i, x, y, cx, cy, color, base, s);
        i := i + 1;
      }
      TextEnd(f, str, x, y, cx, cy, s);
    }

    /** gfx_gradient_v. */
    method GradientV(x: int, y: int, w: nat, h: nat, top: nat, bottom: nat)
      requires Valid()
      modifies back, this`pxWritten, this`stores
      ensures Valid()
      ensures Drawn(old(back[..]), RowsLayer(x, y, w, GradientInks(format, h, top, bottom), h))
    {
      ghost var base := back[..];
      ghost var inks := GradientInks(format, h, top, bottom);
      var row := 0;
      ShowsNothing(sc, clip, base, RowsLayer(x, y, w, inks, 0));
      while row < h
        invariant 0 <= row <= h && Valid()
        invariant Drawn(base, RowsLayer(x, y, w, inks, row))
      {
        GradientRow(x, y, w, h, row, top, bottom, base);
        row := row + 1;
      }
    }

    /** One turn of the gradient loop. */
    method GradientRow(x: int, y: int, w: nat, h: nat, row: nat, top: nat, bottom: nat, ghost base: seq<nat>)
      requires Valid() && row < h && Drawn(base, RowsLayer(x, y, w, GradientInks(format, h, top, bottom), row))
      modifies back, this`pxWritten, this`stores
      ensures Valid() && Drawn(base, RowsLayer(x, y, w, GradientInks(format, h, top, bottom), row + 1))
    {
      var c := Blend(top, bottom, Fraction(row, h));
      ghost var before, inks := back[..], GradientInks(format, h, top, bottom);
      FillRect(x, y + row, w, 1, c);
      InkShows(sc, clip, before, back[..], RectPoints(x, y + row, w, 1), Pack(format, c));
      ShowsThen(sc, clip, base, before, back[..], RowsLayer(x, y, w, inks, row), Ink(RectPoints(x, y + row, w, 1), inks[row]));
      RowsLayerGrows(x, y, w, inks, row);
    }

    /** gfx_clip_set: the clip is the part of the rectangle that is on the screen. */
    method ClipSet(x: int, y: int, w: nat, h: nat)
      requires Valid()
      modifies this`clip
      ensures Valid()
      ensures forall u, v :: Inside(Full(sc), u, v) ==> (Inside(clip, u, v) <==> Inside(Rect(x, y, x + w, y + h), u, v))
    {
      var x', w', y', h' := x, w, y, h;
      if x < 0 {
        w' := if w > -x then w + x else 0;
        x' := 0;
      }
      if y < 0 {
        h' := if h > -y then h + y else 0;
        y' := 0;
      }
      clip := Rect(x', y', if x' + w' > sc.width then sc.width else x' + w', if y' + h' > sc.height then sc.height else y' + h');
    }

    /** gfx_clip_clear. */
    method ClipClear()
      requires Valid()
      modifies this`clip
      ensures Valid() && clip == Full(sc)
    {
      clip := Rect(0, 0, sc.width, sc.height);
    }

    /** memcpy of `n` pixels starting at (x, y) from back to front. */
    method CopyPixels(x: int, y: int, n: nat)
      requires Shape() && 0 <= x && x + n <= sc.stride && 0 <= y < sc.height
      modifies front
      ensures CopiedRow(sc, x, x + n, y, back[..], old(front[..]), front[..])
    {
      ghost var was := front[..];
      var k := 0;
      while k < n
        invariant 0 <= k <= n
        invariant CopiedRow(sc, x, x + k, y, back[..], was, front[..])
      {
        ghost var before := front[..];
        front[Index(sc, x + k, y)] := back[Index(sc, x + k, y)];
        assert front[..] == before[Index(sc, x + k, y) := back[Index(sc, x + k, y)]];
        RowGrows(sc, x, x + k, y, back[..], was, before, front[..]);
        k := k + 1;
      }
    }

    /** gfx_flip: every scanline, padding included. */
    method Flip()
      requires Valid()
      modifies front
      ensures front[..] == back[..]
    {
      ghost var was := front[..];
      var y := 0;
      while y < sc.height
        invariant 0 <= y <= sc.height
        invariant CopiedRows(sc, 0, sc.stride, 0, y, back[..], was, front[..])
      {
        ghost var before := front[..];
        CopyPixels(0, y, sc.stride);
        RowsGrow(sc, 0, sc.stride, 0, y, back[..], was, before, front[..]);
        y := y + 1;
      }
      AllRows(sc, back[..], was, front[..]);
    }

    /** gfx_flip_rect: the part of the rectangle that is on the screen. */
    method FlipRect(x: int, y: int, w: nat, h: nat)
      requires Valid()
      modifies front
      ensures CopiedRect(sc, Rect(x, y, x + w, y + h), back[..], old(front[..]), front[..])
    {
      ghost var was := front[..];
      var x0, y0, x1, y1 := x, y, x + w, y + h;
      if x0 < 0 { x0 := 0; }
      if y0 < 0 { y0 := 0; }
      if x1 > sc.width { x1 := sc.width; }
      if y1 > sc.height { y1 := sc.height; }
      if x0 >= x1 || y0 >= y1 {
        return;
      }
      var row := y0;
      while row < y1
        invariant y0 <= row <= y1
        invariant CopiedRows(sc, x0, x1, y0, row, back[..], was, front[..])
      {
        ghost var before := front[..];
        CopyPixels(x0, row, x1 - x0);
        RowsGrow(sc, x0, x1, y0, row, back[..], was, before, front[..]);
        row := row + 1;
      }
    }

    method Draw(font: Option<Font>, op: Op)
      requires Valid() && Drawable(op) && (font.Some? ==> ValidFont(font.value))
      modifies back, this`pxWritten, this`stores
      ensures Valid()
      ensures Drawn(old(back[..]), LayerOf(sc, format, font, op))
    {
      ghost var base := back[..];
      match op
      case Pixel(x, y, c) =>
        PutPixel(x, y, c);
        InkShows(sc, clip, base, back[..], iset{(x, y)}, Pack(format, c));
      case Filled(x, y, w, h, c) =>
        FillRect(x, y, w, h, c);
        InkShows(sc, clip, base, back[..], RectPoints(x, y, w, h), Pack(format, c));
      case Framed(x, y, w, h, c) =>
        DrawRect(x, y, w, h, c);
        InkShows(sc, clip, base, back[..], FramePoints(x, y, w, h), Pack(format, c));
      case Segment(l, c) =>
        DrawLine(l, c);
        InkShows(sc, clip, base, back[..], LinePoints(l, Steps(l) + 1), Pack(format, c));
      case Circle(cx, cy, r, c) =>
        DrawCircle(cx, cy, r, c);
        InkShows(sc, clip, base, back[..], CirclePoints(cx, cy, r, r + 1), Pack(format, c));
      case Disc(cx, cy, r, c) =>
        FillCircle(cx, cy, r, c);
        InkShows(sc, clip, base, back[..], DiscPoints(cx, cy, r), Pack(format, c));
      case Text(x, y, str, c) =>
        DrawString(font, x, y, str, c);
        InkShows(sc, clip, base, back[..], StringPoints(font, str, x, y), Pack(format, c));
      case Gradient(x, y, w, h, top, bottom) => GradientV(x, y, w, h, top, bottom);
      case Cleared(c) =>
        Clear(c);
        InkShows(sc, clip, base, back[..], RectPoints(0, 0, sc.width, sc.height), Pack(format, c));
    }

    /** Any sequence of drawing operations under one clip. */
    method Render(font: Option<Font>, ops: seq<Op>)
      requires Valid() && (font.Some? ==> ValidFont(font.value))
      requires forall i :: 0 <= i < |ops| ==> Drawable(ops[i])
      modifies back, this`pxWritten, this`stores
      ensures Valid()
      ensures Drawn(old(back[..]), Scene(sc, format, font, ops))
    {
      ghost var base := back[..];
      var i := 0;
      ShowsNothing(sc, clip, base, imap[]);
      while i < |ops|
        invariant 0 <= i <= |ops| && Valid()
        invariant Drawn(base, Scene(sc, format, font, ops[..i]))
      {
        ghost var before := back[..];
        Draw(font, ops[i]);
        ShowsThen(sc, clip, base, before, back[..], Scene(sc, format, font, ops[..i]), LayerOf(sc, format, font, ops[i]));
        assert ops[..i + 1][..i] == ops[..i];
        i := i + 1;
      }
      assert ops[..i] == ops;
    }

    /**
     The compositor's partial frame: clip to the dirty rectangle, redraw the scene, copy
     the rectangle to the screen.  `full` is what a full redraw would leave in the back
     buffer; if the screen already showed it outside the rectangle, it now shows it everywhere.
     */
    method DirtyFrame(x: int, y: int, w: nat, h: nat, font: Option<Font>, ops: seq<Op>, ghost full: seq<nat>)
      requires Valid() && (font.Some? ==> ValidFont(font.value))
      requires forall i :: 0 <= i < |ops| ==> Drawable(ops[i])
      requires Shows(sc, Full(sc), back[..], full, Scene(sc, format, font, ops))
      requires forall u, v :: Inside(Full(sc), u, v) && !Inside(Rect(x, y, x + w, y + h), u, v) ==>
                 Px(sc, front[..], u, v) == Px(sc, full, u, v)
      modifies this, back, front
      ensures Valid() && clip == Full(sc)
      ensures Shows(sc, Rect(x, y, x + w, y + h), old(back[..]), back[..], Scene(sc, format, font, ops))
      ensures forall u, v :: Inside(Full(sc), u, v) ==> Px(sc, front[..], u, v) == Px(sc, full, u, v)
    {
      ghost var r, was, shown := Rect(x, y, x + w, y + h), back[..], front[..];
      ghost var layer := Scene(sc, format, font, ops);
      ClipSet(x, y, w, h);
      Render(font, ops);
      ShowsOtherClip(sc, clip, r, was, back[..], layer);
      ghost var dirty := back[..];
      FlipRect(x, y, w, h);
      ClipClear();
      forall u, v | Inside(Full(sc), u, v)
        ensures Px(sc, front[..], u, v) == Px(sc, full, u, v)
      {
        DirtyRedrawIsFullRedraw(sc, r, was, layer, shown, dirty, front[..], full, u, v);
      }
    }
  }

  lemma RowGrowsBy(x0: int, x: int, y: int)
    requires x0 <= x
    ensures RectPoints(x0, y, x + 1 - x0, 1) == RectPoints(x0, y, x - x0, 1) + iset{(x, y)}
  {
  }

  lemma RowPairGrows(x: int, y: int, y': int, i: nat)
    ensures RowPair(x, y, y', i + 1) == WithTwo(RowPair(x, y, y', i), x + i, y, x + i, y')
  {
  }

  lemma ColumnPairGrows(x: int, x': int, y: int, i: nat)
    ensures ColumnPair(x, x', y, i + 1) == WithTwo(ColumnPair(x, x', y, i), x, y + i, x', y + i)
  {
  }

  lemma LineGrows(l: Line, n: nat, x: int, y: int, err: int)
    requires AtPixel(l, n, x, y, err)
    ensures LinePoints(l, n + 1) == LinePoints(l, n) + iset{(x, y)}
  {
    forall p: (int, int)
      ensures p in LinePoints(l, n + 1) <==> p in LinePoints(l, n) + iset{(x, y)}
    {
      if p in LinePoints(l, n + 1) {
        var k: nat :| k < n + 1 && LineAt(l, k) == p;
        assert k < n || p == LineAt(l, n);
      }
    }
  }

  lemma CircleGrows(cx: int, cy: int, r: nat, x: int, y: int, err: int)
    requires CircleAt(r, x, y, err) && x >= y
    ensures CirclePoints(cx, cy, r, y + 1) == WithEight(CirclePoints(cx, cy, r, y), cx, cy, x, y)
  {
    CircleStep(r, x, y, err);
    CirclePrefix(cx, cy, r, x, y);
  }

  lemma InWithEight(s: Points, cx: int, cy: int, a: int, b: int, p: (int, int))
    ensures p in WithEight(s, cx, cy, a, b) <==> p in s || IsReflection(cx, cy, a, b, p)
  {
  }

  lemma CirclePrefix(cx: int, cy: int, r: nat, x: int, y: nat)
    requires OctantPoint(r, x, y)
    ensures CirclePoints(cx, cy, r, y + 1) == WithEight(CirclePoints(cx, cy, r, y), cx, cy, x, y)
  {
    forall p: (int, int)
      ensures p in CirclePoints(cx, cy, r, y + 1) <==> p in WithEight(CirclePoints(cx, cy, r, y), cx, cy, x, y)
    {
      InWithEight(CirclePoints(cx, cy, r, y), cx, cy, x, y, p);
      if p in CirclePoints(cx, cy, r, y + 1) {
        var a, b :| OctantPoint(r, a, b) && b < y + 1 && IsReflection(cx, cy, a, b, p);
        if b == y {
          OctantUnique(r, a, x, y);
        }
      }
    }
  }

  /** When the loop ends every octant point has been plotted. */
  lemma CircleComplete(cx: int, cy: int, r: nat, x: int, y: int, err: int)
    requires x < y && CircleAt(r, x, y, err)
    ensures CirclePoints(cx, cy, r, y) == CirclePoints(cx, cy, r, r + 1)
  {
    forall p: (int, int)
      ensures p in CirclePoints(cx, cy, r, y) <==> p in CirclePoints(cx, cy, r, r + 1)
    {
      if p in CirclePoints(cx, cy, r, y) {
        var a, b :| OctantPoint(r, a, b) && b < y && IsReflection(cx, cy, a, b, p);
        OctantInRadius(r, a, b);
      } else if p in CirclePoints(cx, cy, r, r + 1) {
        var a, b :| OctantPoint(r, a, b) && b < r + 1 && IsReflection(cx, cy, a, b, p);
        if b >= y {
          OctantEnds(r, x, y, a, b);
        }
      }
    }
  }

  lemma DiscBound(r: nat, dx: int, dy: int)
    requires InDisc(r, dx, dy)
    ensures -(r as int) <= dx <= r && -(r as int) <= dy <= r
  {
    AbsLe(dx, r, dy * dy);
    AbsLe(dy, r, dx * dx);
  }

  lemma AbsLe(d: int, r: nat, rest: int)
    requires d * d + rest <= r * r && rest >= 0
    ensures -(r as int) <= d <= r
  {
    assert (r + 1) * (r + 1) == r * r + 2 * r + 1;
    if d > r {
      SquareLe(r + 1, d);
    } else if -d > r {
      assert (-d) * (-d) == d * d;
      SquareLe(r + 1, -d);
    }
  }

  lemma DiscStart(cx: int, cy: int, r: nat)
    ensures DiscPart(cx, cy, r, -(r as int), -(r as int)) == iset{}
  {
    forall p: (int, int) | InDisc(r, p.0 - cx, p.1 - cy)
      ensures p !in DiscPart(cx, cy, r, -(r as int), -(r as int))
    {
      DiscBound(r, p.0 - cx, p.1 - cy);
    }
  }

  lemma DiscNext(cx: int, cy: int, r: nat, dx: int, dy: int)
    ensures InDisc(r, dx, dy) ==> DiscPart(cx, cy, r, dx + 1, dy) == DiscPart(cx, cy, r, dx, dy) + iset{(cx + dx, cy + dy)}
    ensures !InDisc(r, dx, dy) ==> DiscPart(cx, cy, r, dx + 1, dy) == DiscPart(cx, cy, r, dx, dy)
  {
  }

  lemma DiscRow(cx: int, cy: int, r: nat, dy: int)
    ensures DiscPart(cx, cy, r, r + 1, dy) == DiscPart(cx, cy, r, -(r as int), dy + 1)
  {
    forall p: (int, int) | InDisc(r, p.0 - cx, p.1 - cy)
      ensures p in DiscPart(cx, cy, r, r + 1, dy) <==> p in DiscPart(cx, cy, r, -(r as int), dy + 1)
    {
      DiscBound(r, p.0 - cx, p.1 - cy);
    }
  }

  lemma DiscEnd(cx: int, cy: int, r: nat)
    ensures DiscPart(cx, cy, r, -(r as int), r + 1) == DiscPoints(cx, cy, r)
  {
    forall p: (int, int) | InDisc(r, p.0 - cx, p.1 - cy)
      ensures p in DiscPart(cx, cy, r, -(r as int), r + 1)
    {
      DiscBound(r, p.0 - cx, p.1 - cy);
    }
  }

  lemma GlyphNext(f: Font, ch: Byte, cx: int, cy: int, gx: int, gy: int, s: Points)
    requires ValidFont(f)
    ensures GlyphBit(f, ch, gx, gy) ==>
              s + GlyphPart(f, ch, cx, cy, gx + 1, gy) == s + GlyphPart(f, ch, cx, cy, gx, gy) + iset{(cx + gx, cy + gy)}
    ensures !GlyphBit(f, ch, gx, gy) ==> s + GlyphPart(f, ch, cx, cy, gx + 1, gy) == s + GlyphPart(f, ch, cx, cy, gx, gy)
  {
  }

  lemma GlyphRow(f: Font, ch: Byte, cx: int, cy: int, gy: int, s: Points)
    requires ValidFont(f)
    ensures s + GlyphPart(f, ch, cx, cy, f.width, gy) == s + GlyphPart(f, ch, cx, cy, 0, gy + 1)
  {
  }

  /** The first `i` characters have inked `s` and left the pen at (cx, cy). */
  ghost predicate TextAt(f: Font, str: seq<Byte>, i: nat, x: int, y: int, cx: int, cy: int, s: Points)
    requires ValidFont(f)
  {
    i <= |str| && s + TextPoints(f, str[i..], x, cx, cy) == TextPoints(f, str, x, x, y)
  }

  lemma TextStart(f: Font, str: seq<Byte>, x: int, y: int)
    requires ValidFont(f)
    ensures TextAt(f, str, 0, x, y, x, y, iset{})
  {
    assert str[0..] == str;
  }

  lemma TextNext(f: Font, str: seq<Byte>, i: nat, x: int, y: int, cx: int, cy: int, s: Points)
    requires ValidFont(f) && TextAt(f, str, i, x, y, cx, cy, s) && i < |str|
    ensures str[i] == NEWLINE ==> TextAt(f, str, i + 1, x, y, x, cy + f.height, s)
    ensures str[i] != NEWLINE ==> TextAt(f, str, i + 1, x, y, cx + f.width, cy, s + GlyphPoints(f, str[i], cx, cy))
  {
    assert str[i..][1..] == str[i + 1..];
    var g, rest := GlyphPoints(f, str[i], cx, cy), TextPoints(f, str[i + 1..], x, cx + f.width, cy);
    assert s + (g + rest) == (s + g) + rest;
  }

  lemma TextEnd(f: Font, str: seq<Byte>, x: int, y: int, cx: int, cy: int, s: Points)
    requires ValidFont(f) && TextAt(f, str, |str|, x, y, cx, cy, s)
    ensures s == TextPoints(f, str, x, x, y)
  {
    assert str[|str|..] == [];
  }

  lemma RowsLayerGrows(x: int, y: int, w: int, inks: seq<nat>, row: nat)
    requires row < |inks|
    ensures RowsLayer(x, y, w, inks, row) + Ink(RectPoints(x, y + row, w, 1), inks[row])
         == RowsLayer(x, y, w, inks, row + 1)
  {
  }
}
