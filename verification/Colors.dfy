/**
 Colours of the 2D library: packing 0xRRGGBB into the frame buffer's channel layout, blending
 two colours, and the rows of a vertical gradient.
 */
module Colors {
  import opened Arithmetic
  import opened Bytes
  import opened Bits

  /** Bit positions of the channels in a packed pixel. */
  datatype Format = Format(red: nat, green: nat, blue: nat)

  /** A channel shifted into a 32-bit pixel. */
  function Channel(v: nat, shift: nat): nat {
    ShiftLeft(v, shift) % TWO32
  }

  /** make_color: 0xRRGGBB in the frame buffer's channel layout. */
  function MakeColor(f: Format, rgb: nat): nat {
    Or(Or(Channel(rgb / 0x1_0000 % 256, f.red), Channel(rgb / 256 % 256, f.green)), Channel(rgb % 256, f.blue))
  }

  /**
   The same, `depth` calls away.  The solver does not unfold a recursion this deep, so
   drawing is reasoned about without looking at the bits of a colour.
   */
  function Sealed(depth: nat, f: Format, rgb: nat): nat
    decreases depth, f, rgb
  {
    if depth == 0 then MakeColor(f, rgb) else Sealed(depth - 1, f, rgb)
  }

  const SEAL: nat := 4

  function Pack(f: Format, rgb: nat): nat {
    Sealed(SEAL, f, rgb)
  }

  lemma {:induction false} Unseal(depth: nat, f: Format, rgb: nat)
    ensures Sealed(depth, f, rgb) == MakeColor(f, rgb)
  {
    if depth > 0 {
      Unseal(depth - 1, f, rgb);
    }
  }

  lemma PackIsMakeColor(f: Format, rgb: nat)
    ensures Pack(f, rgb) == MakeColor(f, rgb)
  {
    Unseal(SEAL, f, rgb);
  }

  /** With the usual layout, shifts 16, 8 and 0, a pixel is its 0xRRGGBB: each channel in its own byte. */
  lemma PackStandard(rgb: nat)
    ensures var p := Pack(Format(16, 8, 0), rgb);
            && p == rgb % 0x100_0000
            && p / 0x1_0000 == rgb / 0x1_0000 % 256 && p / 256 % 256 == rgb / 256 % 256 && p % 256 == rgb % 256
  {
    PackIsMakeColor(Format(16, 8, 0), rgb);
    StandardOr(rgb / 0x1_0000 % 256, rgb / 256 % 256, rgb % 256);
    ChannelBytes(rgb);
  }

  lemma StandardOr(r: nat, g: nat, b: nat)
    requires r < 256 && g < 256 && b < 256
    ensures Or(Or(Channel(r, 16), Channel(g, 8)), Channel(b, 0)) == 0x1_0000 * r + 256 * g + b
  {
    StandardShifts(r, g, b);
    assert ShiftLeft(1, 8) == 256 && ShiftLeft(1, 16) == 0x1_0000;
    DivModUnique(0x1_0000 * r, 0x1_0000, r, 0);
    OrIsSum(0x1_0000 * r, 256 * g, 16);
    DivModUnique(0x1_0000 * r + 256 * g, 256, 256 * r + g, 0);
    OrIsSum(0x1_0000 * r + 256 * g, b, 8);
  }

  lemma StandardShifts(r: nat, g: nat, b: nat)
    requires r < 256 && g < 256 && b < 256
    ensures Channel(r, 16) == 0x1_0000 * r && Channel(g, 8) == 256 * g && Channel(b, 0) == b
  {
    assert ShiftLeft(1, 8) == 256 && ShiftLeft(1, 16) == 0x1_0000;
    ShiftIsProduct(r, 16);
    ShiftIsProduct(g, 8);
    DivModUnique(0x1_0000 * r, TWO32, 0, 0x1_0000 * r);
    DivModUnique(256 * g, TWO32, 0, 256 * g);
    DivModUnique(b, TWO32, 0, b);
  }

  lemma ChannelBytes(rgb: nat)
    ensures var r, g, b := rgb / 0x1_0000 % 256, rgb / 256 % 256, rgb % 256; var p := 0x1_0000 * r + 256 * g + b;
            p == rgb % 0x100_0000 && p / 0x1_0000 == r && p / 256 % 256 == g && p % 256 == b
  {
    var r, g, b := rgb / 0x1_0000 % 256, rgb / 256 % 256, rgb % 256;
    var p := 0x1_0000 * r + 256 * g + b;
    ModStep(rgb, 256 * 256);
    ModStep(rgb / 256, 256);
    DivModUnique(rgb / 256, 256, rgb / 0x1_0000, g);
    DivModUnique(p, 0x1_0000, r, 256 * g + b);
    DivModUnique(p, 256, 256 * r + g, b);
    DivModUnique(256 * r + g, 256, r, g);
  }

  // ---------------------------------------------------------------- blending

  /** One channel of gfx_blend. */
  function Mix(a: nat, b: nat, t: nat): nat
    requires t <= 255
  {
    MulNonNegative(a, 255 - t);
    MulNonNegative(b, t);
    (a * (255 - t) + b * t) / 255
  }

  function Blend(a: nat, b: nat, t: nat): nat
    requires t <= 255
  {
    var red, green, blue :=
      Mix(a / 0x1_0000 % 256, b / 0x1_0000 % 256, t), Mix(a / 256 % 256, b / 256 % 256, t), Mix(a % 256, b % 256, t);
    Or(Or(red * 0x1_0000, green * 256), blue)
  }

  /** How far row `row` of `h` is along a gradient, 0 to 255. */
  function Fraction(row: nat, h: nat): (t: nat)
    ensures t <= 255
  {
    if h > 1 then row * 255 / (h - 1) % 256 else 0
  }

  /** The colour of each row of a vertical gradient over `h` rows. */
  function GradientInks(format: Format, h: nat, top: nat, bottom: nat): (inks: seq<nat>)
    ensures |inks| == h
  {
    seq(h, row requires 0 <= row < h => Pack(format, Blend(top, bottom, Fraction(row, h))))
  }

  // ---------------------------------------------------------------- what blending and gradients mean

  lemma MulMono(a: int, b: int, t: int, u: int)
    requires a <= b && t <= u
    ensures a * (255 - t) + b * t <= a * (255 - u) + b * u
  {
    MulNonNegative(b - a, u - t);
    assert (b - a) * (u - t) == (a * (255 - u) + b * u) - (a * (255 - t) + b * t);
  }

  /** A mixed channel is the exact mean rounded down; it starts at one end and ends at the other. */
  lemma MixMean(a: nat, b: nat, t: nat)
    requires t <= 255
    ensures 255 * Mix(a, b, t) <= a * (255 - t) + b * t < 255 * Mix(a, b, t) + 255
    ensures Mix(a, b, 0) == a && Mix(a, b, 255) == b
  {
    MulNonNegative(a, 255 - t);
    MulNonNegative(b, t);
    DivModUnique(a * 255 + b * 0, 255, a, 0);
    DivModUnique(a * 0 + b * 255, 255, b, 0);
  }

  lemma QuotientMono(x: int, y: int)
    requires x <= y
    ensures x / 255 <= y / 255
  {
  }

  /** It moves from one end to the other without turning back. */
  lemma MixMonotone(a: nat, b: nat, t: nat, u: nat)
    requires t <= u <= 255
    ensures a <= b ==> a <= Mix(a, b, t) <= Mix(a, b, u) <= b
    ensures b <= a ==> b <= Mix(a, b, u) <= Mix(a, b, t) <= a
  {
    MixMean(a, b, t);
    MixMean(a, b, u);
    if a <= b {
      MixOrder(a, b, 0, t);
      MixOrder(a, b, t, u);
      MixOrder(a, b, u, 255);
    }
    if b <= a {
      MixBackwards(a, b, 0, t);
      MixBackwards(a, b, t, u);
      MixBackwards(a, b, u, 255);
    }
  }

  lemma MixOrder(a: nat, b: nat, t: nat, u: nat)
    requires a <= b && t <= u <= 255
    ensures Mix(a, b, t) <= Mix(a, b, u)
  {
    MulMono(a, b, t, u);
    QuotientMono(a * (255 - t) + b * t, a * (255 - u) + b * u);
  }

  lemma MixBackwards(a: nat, b: nat, t: nat, u: nat)
    requires b <= a && t <= u <= 255
    ensures Mix(a, b, u) <= Mix(a, b, t)
  {
    MulMono(b, a, 255 - u, 255 - t);
    assert b * (255 - (255 - u)) + a * (255 - u) == a * (255 - u) + b * u;
    assert b * (255 - (255 - t)) + a * (255 - t) == a * (255 - t) + b * t;
    QuotientMono(a * (255 - u) + b * u, a * (255 - t) + b * t);
  }

  function Red(c: nat): nat { c / 0x1_0000 % 256 }
  function Green(c: nat): nat { c / 256 % 256 }
  function Blue(c: nat): nat { c % 256 }

  lemma OrBytes(r: nat, g: nat, b: nat)
    requires r < 256 && g < 256 && b < 256
    ensures Or(Or(r * 0x1_0000, g * 256), b) == 0x1_0000 * r + 256 * g + b
  {
    assert ShiftLeft(1, 8) == 256 && ShiftLeft(1, 16) == 0x1_0000;
    DivModUnique(r * 0x1_0000, 0x1_0000, r, 0);
    OrIsSum(r * 0x1_0000, g * 256, 16);
    DivModUnique(r * 0x1_0000 + g * 256, 256, 256 * r + g, 0);
    OrIsSum(r * 0x1_0000 + g * 256, b, 8);
  }

  /** Each channel of a blend is the mix of the two channels, in its own byte. */
  lemma BlendChannels(a: nat, b: nat, t: nat)
    requires t <= 255
    ensures var c := Blend(a, b, t);
            && c < 0x100_0000
            && Red(c) == Mix(Red(a), Red(b), t) && Green(c) == Mix(Green(a), Green(b), t) && Blue(c) == Mix(Blue(a), Blue(b), t)
  {
    MixMonotone(Red(a), Red(b), t, t);
    MixMonotone(Green(a), Green(b), t, t);
    MixMonotone(Blue(a), Blue(b), t, t);
    var r, g, u := Mix(Red(a), Red(b), t), Mix(Green(a), Green(b), t), Mix(Blue(a), Blue(b), t);
    OrBytes(r, g, u);
    BytesApart(r, g, u);
  }

  lemma BytesApart(r: nat, g: nat, b: nat)
    requires r < 256 && g < 256 && b < 256
    ensures var c := 0x1_0000 * r + 256 * g + b; c < 0x100_0000 && Red(c) == r && Green(c) == g && Blue(c) == b
  {
    var c := 0x1_0000 * r + 256 * g + b;
    DivModUnique(c, 0x1_0000, r, 256 * g + b);
    DivModUnique(c, 256, 256 * r + g, b);
    DivModUnique(256 * r + g, 256, r, g);
  }

  lemma SameBytes(c: nat, d: nat)
    requires c < 0x100_0000 && Red(c) == Red(d) && Green(c) == Green(d) && Blue(c) == Blue(d)
    ensures c == d % 0x100_0000
  {
    ChannelBytes(c);
    ChannelBytes(d);
    DivModUnique(c, 0x100_0000, 0, c);
  }

  /** A blend starts at the first colour and ends at the second. */
  lemma BlendEnds(a: nat, b: nat)
    ensures Blend(a, b, 0) == a % 0x100_0000 && Blend(a, b, 255) == b % 0x100_0000
  {
    BlendChannels(a, b, 0);
    BlendChannels(a, b, 255);
    MixMean(Red(a), Red(b), 0);
    MixMean(Green(a), Green(b), 0);
    MixMean(Blue(a), Blue(b), 0);
    SameBytes(Blend(a, b, 0), a);
    SameBytes(Blend(a, b, 255), b);
  }

  /** A packed pixel depends on the 24 bits of its colour. */
  lemma PackLow24(f: Format, c: nat)
    ensures Pack(f, c % 0x100_0000) == Pack(f, c)
  {
    ChannelBytes(c);
    BytesApart(Red(c), Green(c), Blue(c));
    PackIsMakeColor(f, c);
    PackIsMakeColor(f, c % 0x100_0000);
  }

  /** Along `h` rows the fraction runs from 0 to 255; one row alone is at 0. */
  lemma FractionEnds(h: nat)
    requires h > 0
    ensures Fraction(0, h) == 0 && (h > 1 ==> Fraction(h - 1, h) == 255)
  {
    if h > 1 {
      FractionIs(h - 1, h);
      FractionIs(0, h);
      DivModUnique((h - 1) * 255, h - 1, 255, 0);
      DivModUnique(0 * 255, h - 1, 0, 0);
    }
  }

  /** It never falls from one row to a later one. */
  lemma FractionRises(row: nat, later: nat, h: nat)
    requires row <= later < h
    ensures Fraction(row, h) <= Fraction(later, h)
  {
    if h > 1 {
      FractionIs(row, h);
      FractionIs(later, h);
      QuotientLe(row * 255, later * 255, h - 1);
    }
  }

  /** The fraction of a row is its exact position, times 255, rounded down. */
  lemma FractionIs(row: nat, h: nat)
    requires h > 1 && row < h
    ensures Fraction(row, h) == row * 255 / (h - 1)
    ensures Fraction(row, h) * (h - 1) <= row * 255 < (Fraction(row, h) + 1) * (h - 1)
  {
    var q := row * 255 / (h - 1);
    assert row * 255 == (h - 1) * q + row * 255 % (h - 1);
    assert (h - 1) * q == q * (h - 1) && (q + 1) * (h - 1) == q * (h - 1) + (h - 1);
    if q > 255 {
      MulLe(256, q, h - 1);
    } else if q < 0 {
      MulLe(q, -1, h - 1);
    }
    DivModUnique(q, 256, 0, q);
  }

  /** The first row of a gradient is the top colour and the last the bottom colour; a single row is the top colour. */
  lemma GradientEnds(format: Format, h: nat, top: nat, bottom: nat)
    requires h > 0
    ensures GradientInks(format, h, top, bottom)[0] == Pack(format, top)
    ensures h > 1 ==> GradientInks(format, h, top, bottom)[h - 1] == Pack(format, bottom)
  {
    FractionEnds(h);
    BlendEnds(top, bottom);
    PackLow24(format, top);
    PackLow24(format, bottom);
  }

  /** `v` lies between the ends and `w`, further on, between `v` and the second end. */
  predicate Onward(a: nat, v: nat, w: nat, b: nat) {
    (a <= b ==> a <= v <= w <= b) && (b <= a ==> b <= w <= v <= a)
  }

  /** Between its ends a gradient moves in every channel without turning back. */
  lemma GradientOnward(format: Format, h: nat, top: nat, bottom: nat, row: nat, later: nat) returns (c: nat, d: nat)
    requires row <= later < h
    ensures GradientInks(format, h, top, bottom)[row] == Pack(format, c)
    ensures GradientInks(format, h, top, bottom)[later] == Pack(format, d)
    ensures Onward(Red(top), Red(c), Red(d), Red(bottom)) && Onward(Green(top), Green(c), Green(d), Green(bottom))
    ensures Onward(Blue(top), Blue(c), Blue(d), Blue(bottom))
  {
    FractionRises(row, later, h);
    var t, u := Fraction(row, h), Fraction(later, h);
    c, d := Blend(top, bottom, t), Blend(top, bottom, u);
    BlendChannels(top, bottom, t);
    BlendChannels(top, bottom, u);
    MixMonotone(Red(top), Red(bottom), t, u);
    MixMonotone(Green(top), Green(bottom), t, u);
    MixMonotone(Blue(top), Blue(bottom), t, u);
  }
}
