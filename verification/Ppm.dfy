/**
 The PPM-to-PNG converter of tools/boot_debug.py: the P6 header with its whitespace and
 comments, filter-0 scanlines, and the three chunks written; and the round trip through
 the PNG reader.  `deflate` is zlib's compressor; checksums are arbitrary four-byte values,
 which the reader skips.
 */
module Ppm {
  import opened Arithmetic
  import opened Bytes
  import opened PngFilter
  import opened Png

  type Deflate = seq<Byte> -> seq<Byte>

  // ---------------------------------------------------------------- header fields

  const HASH: Byte := 0x23
  const LF: Byte := 10

  predicate IsSpace(b: Byte) {
    b == 0x20 || b == 9 || b == 10 || b == 13
  }

  predicate IsDigit(b: Byte) {
    0x30 <= b <= 0x39
  }

  function SkipSpace(d: seq<Byte>): (r: seq<Byte>)
    ensures |r| <= |d|
    decreases |d|
  {
    if d != [] && IsSpace(d[0]) then SkipSpace(d[1..]) else d
  }

  function SkipLine(d: seq<Byte>): (r: seq<Byte>)
    ensures |r| <= |d|
    ensures d != [] && d[0] != LF ==> |r| < |d|
    decreases |d|
  {
    if d != [] && d[0] != LF then SkipLine(d[1..]) else d
  }

  /** The length of the run of non-space bytes at the front. */
  function TokenLen(d: seq<Byte>): (n: nat)
    ensures n <= |d|
    decreases |d|
  {
    if d != [] && !IsSpace(d[0]) then 1 + TokenLen(d[1..]) else 0
  }

  /** Drop whitespace and comments before the next field. */
  function SkipGap(d: seq<Byte>): (r: seq<Byte>)
    ensures |r| <= |d|
    decreases |d|
  {
    var s := SkipSpace(d);
    if s != [] && s[0] == HASH then SkipGap(SkipLine(s)) else s
  }

  /** White space that int() strips: the space, and the controls from tab to carriage return. */
  predicate IsBlank(b: Byte) {
    b == 0x20 || 9 <= b <= 13
  }

  function StripLeft(t: seq<Byte>): seq<Byte>
    decreases |t|
  {
    if t != [] && IsBlank(t[0]) then StripLeft(t[1..]) else t
  }

  function StripRight(t: seq<Byte>): seq<Byte>
    decreases |t|
  {
    if t != [] && IsBlank(t[|t| - 1]) then StripRight(t[..|t| - 1]) else t
  }

  const UNDERSCORE: Byte := 0x5F
  const PLUS: Byte := 0x2B
  const MINUS: Byte := 0x2D

  /** Digits, with single underscores allowed between them. */
  function Decimal(t: seq<Byte>): Option<nat>
    decreases |t|
  {
    if t == [] || !IsDigit(t[|t| - 1]) then None
    else if |t| == 1 then Some(t[0] - 0x30)
    else
      var n := if t[|t| - 2] == UNDERSCORE then |t| - 2 else |t| - 1;
      var front := Decimal(t[..n]);
      if front.None? then None else Some(front.value * 10 + (t[|t| - 1] - 0x30))
  }

  /** Python's int() on a token. */
  function Int(t: seq<Byte>): Option<int> {
    var s := StripRight(StripLeft(t));
    var signed := s != [] && (s[0] == PLUS || s[0] == MINUS);
    var v := Decimal(if signed then s[1..] else s);
    if v.None? then None else Some(if signed && s[0] == MINUS then 0 - v.value else v.value)
  }

  /** One field and what follows it. */
  function Field(d: seq<Byte>): Option<(int, seq<Byte>)> {
    var s := SkipGap(d);
    var v := Int(s[..TokenLen(s)]);
    if v.None? then None else Some((v.value, s[TokenLen(s)..]))
  }

  datatype Header = Header(width: int, height: int, max: int, rest: seq<Byte>)

  // The three fields, each followed by the rest of the header.
  function ParseHeader(d: seq<Byte>): Option<Header> {
    if |d| < 2 || d[..2] != [0x50, 0x36] then None else
    var w := Field(d[2..]);
    if w.None? then None else ParseHeight(w.value.0, w.value.1)
  }

  function ParseHeight(w: int, d: seq<Byte>): Option<Header> {
    var h := Field(d);
    if h.None? then None else ParseMax(w, h.value.0, h.value.1)
  }

  function ParseMax(w: int, h: int, d: seq<Byte>): Option<Header> {
    var m := Field(d);
    if m.None? then None else Some(Header(w, h, m.value.0, Cut(m.value.1, 1, |m.value.1| + 1)))
  }

  // The inner loops of the field reader, each advancing an index over the data.

  method PassSpace(d: seq<Byte>, start: nat) returns (idx: nat)
    requires start <= |d|
    ensures start <= idx <= |d| && SkipSpace(d[start..]) == d[idx..]
  {
    idx := start;
    while idx < |d| && IsSpace(d[idx])
      invariant start <= idx <= |d|
      invariant SkipSpace(d[start..]) == SkipSpace(d[idx..])
    {
      assert d[idx..][1..] == d[idx + 1..];
      idx := idx + 1;
    }
  }

  method PassLine(d: seq<Byte>, start: nat) returns (idx: nat)
    requires start < |d| && d[start] != LF
    ensures start < idx <= |d| && SkipLine(d[start..]) == d[idx..]
  {
    idx := start;
    while idx < |d| && d[idx] != LF
      invariant start <= idx <= |d|
      invariant SkipLine(d[start..]) == SkipLine(d[idx..])
    {
      assert d[idx..][1..] == d[idx + 1..];
      idx := idx + 1;
    }
    assert SkipLine(d[start..]) == d[idx..];
  }

  method PassToken(d: seq<Byte>, start: nat) returns (idx: nat)
    requires start <= |d|
    ensures start <= idx <= |d| && TokenLen(d[start..]) == idx - start
  {
    idx := start;
    while idx < |d| && !IsSpace(d[idx])
      invariant start <= idx <= |d|
      invariant TokenLen(d[start..]) == idx - start + TokenLen(d[idx..])
    {
      assert d[idx..][1..] == d[idx + 1..];
      idx := idx + 1;
    }
  }

  method PassGap(d: seq<Byte>, start: nat) returns (idx: nat)
    requires start <= |d|
    ensures start <= idx <= |d| && SkipGap(d[start..]) == d[idx..]
  {
    idx := PassSpace(d, start);
    while idx < |d| && d[idx] == HASH
      invariant start <= idx <= |d|
      invariant SkipGap(d[start..]) == if idx < |d| && d[idx] == HASH then SkipGap(SkipLine(d[idx..])) else d[idx..]
      decreases |d| - idx
    {
      idx := PassLine(d, idx);
      idx := PassSpace(d, idx);
    }
  }

  /** The loop that reads one field. */
  method ReadField(d: seq<Byte>, start: nat) returns (v: Option<int>, idx: nat)
    requires start <= |d|
    ensures start <= idx <= |d|
    ensures var f := Field(d[start..]);
            (v.None? <==> f.None?) && (v.Some? ==> f == Some((v.value, d[idx..])))
  {
    var first := PassGap(d, start);
    idx := PassToken(d, first);
    v := Int(d[first..idx]);
    ghost var s := d[first..];
    assert s[..idx - first] == d[first..idx] && s[idx - first..] == d[idx..];
  }

  /** The header part of ppm_to_png. */
  method ReadHeader(d: seq<Byte>) returns (r: Option<Header>)
    ensures r == ParseHeader(d)
  {
    if |d| < 2 || d[..2] != [0x50, 0x36] {
      return None;
    }
    var w, i := ReadField(d, 2);
    if w.None? {
      return None;
    }
    var h, j := ReadField(d, i);
    if h.None? {
      return None;
    }
    var m, k := ReadField(d, j);
    if m.None? {
      return None;
    }
    var rest := d[Min(k + 1, |d|)..];
    assert rest == Cut(d[k..], 1, |d[k..]| + 1);
    return Some(Header(w.value, h.value, m.value, rest));
  }

  // ---------------------------------------------------------------- what the header means

  /** Whitespace and comments between fields. */
  datatype GapItem = Blank(b: Byte) | Comment(text: seq<Byte>)

  predicate ValidItem(g: GapItem) {
    match g
    case Blank(b) => b == 32 || b == 9 || b == 10 || b == 13
    case Comment(text) => 10 !in text
  }

  function ItemBytes(g: GapItem): seq<Byte> {
    match g
    case Blank(b) => [b]
    case Comment(text) => Ascii("#") + text + [10]
  }

  function GapBytes(gap: seq<GapItem>): seq<Byte> {
    if gap == [] then [] else ItemBytes(gap[0]) + GapBytes(gap[1..])
  }

  lemma {:induction false} SkipLineText(text: seq<Byte>, rest: seq<Byte>)
    requires LF !in text
    ensures SkipLine(text + [LF] + rest) == [LF] + rest
    decreases |text|
  {
    var d := text + [LF] + rest;
    if text != [] {
      assert d[1..] == text[1..] + [LF] + rest;
      SkipLineText(text[1..], rest);
    }
  }

  lemma SkipItem(g: GapItem, rest: seq<Byte>)
    requires ValidItem(g)
    ensures SkipGap(ItemBytes(g) + rest) == SkipGap(rest)
  {
    match g
    case Blank(b) =>
      assert ([b] + rest)[1..] == rest;
    case Comment(text) =>
      assert Ascii("#") == [HASH];
      var d := [HASH] + text + [LF] + rest;
      assert SkipSpace(d) == d;
      assert d == ([HASH] + text) + [LF] + rest;
      SkipLineText([HASH] + text, rest);
      var e := [LF] + rest;
      assert e[1..] == rest;
  }

  /** Gaps of any length and shape are skipped. */
  lemma {:induction false} SkipWholeGap(gap: seq<GapItem>, rest: seq<Byte>)
    requires forall i :: 0 <= i < |gap| ==> ValidItem(gap[i])
    ensures SkipGap(GapBytes(gap) + rest) == SkipGap(rest)
    decreases |gap|
  {
    if gap == [] {
      assert GapBytes(gap) + rest == rest;
    } else {
      assert GapBytes(gap) + rest == ItemBytes(gap[0]) + (GapBytes(gap[1..]) + rest);
      SkipItem(gap[0], GapBytes(gap[1..]) + rest);
      SkipWholeGap(gap[1..], rest);
    }
  }

  /** Decimal digits of a number. */
  function Digits(n: nat): (t: seq<Byte>)
    ensures t != [] && forall i :: 0 <= i < |t| ==> IsDigit(t[i])
  {
    if n < 10 then [0x30 + n] else Digits(n / 10) + [0x30 + n % 10]
  }

  lemma {:induction false} DecimalDigits(n: nat)
    ensures Decimal(Digits(n)) == Some(n)
    decreases n
  {
    if n >= 10 {
      DecimalDigits(n / 10);
      var t := Digits(n);
      assert t[..|t| - 1] == Digits(n / 10) && IsDigit(t[|t| - 2]);
    }
  }

  /** int() reads a number's own digits back. */
  lemma IntDigits(n: nat)
    ensures Int(Digits(n)) == Some(n)
  {
    var t := Digits(n);
    assert IsDigit(t[0]) && IsDigit(t[|t| - 1]);
    DecimalDigits(n);
  }

  /** A sign in front, as int() reads it. */
  lemma IntSigned(n: nat)
    ensures Int(Ascii("-") + Digits(n)) == Some(0 - n as int) && Int(Ascii("+") + Digits(n)) == Some(n)
  {
    var t, minus, plus := Digits(n), Ascii("-") + Digits(n), Ascii("+") + Digits(n);
    assert minus[1..] == t && plus[1..] == t && minus[0] == 0x2D && plus[0] == 0x2B;
    assert IsDigit(t[|t| - 1]) && minus[|t|] == t[|t| - 1] && plus[|t|] == t[|t| - 1];
    DecimalDigits(n);
  }

  predicate AllBlank(s: seq<Byte>) {
    forall i :: 0 <= i < |s| ==> s[i] == 32 || 9 <= s[i] <= 13
  }

  /** White space around it, as int() strips it. */
  lemma {:induction false} IntStripped(before: seq<Byte>, t: seq<Byte>, after: seq<Byte>)
    requires AllBlank(before) && AllBlank(after) && t != [] && IsDigit(t[0]) && IsDigit(t[|t| - 1])
    ensures Int(before + t + after) == Int(t)
  {
    LeftStripped(before, t + after);
    assert before + t + after == before + (t + after);
    RightStripped(t, after);
  }

  lemma {:induction false} LeftStripped(before: seq<Byte>, t: seq<Byte>)
    requires AllBlank(before) && t != [] && IsDigit(t[0])
    ensures StripLeft(before + t) == t
    decreases |before|
  {
    if before == [] {
      assert before + t == t;
    } else {
      assert (before + t)[1..] == before[1..] + t;
      LeftStripped(before[1..], t);
    }
  }

  lemma {:induction false} RightStripped(t: seq<Byte>, after: seq<Byte>)
    requires AllBlank(after) && t != [] && IsDigit(t[|t| - 1])
    ensures StripRight(t + after) == t
    decreases |after|
  {
    if after == [] {
      assert t + after == t;
    } else {
      var n := |after| - 1;
      assert (t + after)[..|t + after| - 1] == t + after[..n];
      RightStripped(t, after[..n]);
    }
  }

  predicate AllDigits(s: seq<Byte>) {
    s != [] && forall i :: 0 <= i < |s| ==> IsDigit(s[i])
  }

  /** One more digit, with or without an underscore before it. */
  lemma {:induction false} OneMoreDigit(t: seq<Byte>, d: Byte)
    requires t != [] && IsDigit(t[|t| - 1]) && IsDigit(d)
    ensures var v := Decimal(t); var more := if v.None? then None else Some(v.value * 10 + (d - 0x30));
            Decimal(t + [d]) == more && Decimal(t + Ascii("_") + [d]) == more
  {
    var s, u := t + [d], t + Ascii("_") + [d];
    assert s[..|s| - 1] == t && u[..|u| - 2] == t && u[|u| - 2] == UNDERSCORE;
  }

  lemma {:induction false} SameNext(s: seq<Byte>, t: seq<Byte>, d: Byte)
    requires s != [] && IsDigit(s[|s| - 1]) && t != [] && IsDigit(t[|t| - 1]) && IsDigit(d) && Decimal(s) == Decimal(t)
    ensures Decimal(s + [d]) == Decimal(t + [d])
  {
    OneMoreDigit(s, d);
    OneMoreDigit(t, d);
  }

  lemma LastOff(a: seq<Byte>, b: seq<Byte>)
    requires b != []
    ensures a + b == a + b[..|b| - 1] + [b[|b| - 1]]
  {
  }

  /** A single underscore between digits, which int() ignores. */
  lemma {:induction false} UnderscoreIgnored(a: seq<Byte>, b: seq<Byte>)
    requires AllDigits(a) && AllDigits(b)
    ensures Decimal(a + Ascii("_") + b) == Decimal(a + b)
    decreases |b|
  {
    var front, d := b[..|b| - 1], b[|b| - 1];
    LastOff(a + Ascii("_"), b);
    LastOff(a, b);
    if front == [] {
      OneMoreDigit(a, d);
      assert a + Ascii("_") + front == a + Ascii("_") && a + front == a;
    } else {
      UnderscoreIgnored(a, front);
      SameNext(a + Ascii("_") + front, a + front, d);
    }
  }

  lemma {:induction false} TokenOfDigits(t: seq<Byte>, rest: seq<Byte>)
    requires forall i :: 0 <= i < |t| ==> IsDigit(t[i])
    requires rest != [] && IsSpace(rest[0])
    ensures TokenLen(t + rest) == |t|
    decreases |t|
  {
    if t == [] {
      assert t + rest == rest;
    } else {
      assert (t + rest)[1..] == t[1..] + rest;
      TokenOfDigits(t[1..], rest);
    }
  }

  lemma FieldOfDigits(n: nat, rest: seq<Byte>)
    requires rest != [] && IsSpace(rest[0])
    ensures Field(Digits(n) + rest) == Some((n, rest)) && SkipGap(Digits(n) + rest) == Digits(n) + rest
  {
    var t := Digits(n);
    var s := t + rest;
    assert s[0] == t[0];
    TokenOfDigits(t, rest);
    assert s[..|t|] == t && s[|t|..] == rest;
    IntDigits(n);
  }

  /** A field is read back from behind any gap. */
  lemma FieldRecovered(gap: seq<GapItem>, n: nat, rest: seq<Byte>)
    requires forall i :: 0 <= i < |gap| ==> ValidItem(gap[i])
    requires rest != [] && IsSpace(rest[0])
    ensures Field(GapBytes(gap) + (Digits(n) + rest)) == Some((n, rest))
  {
    SkipWholeGap(gap, Digits(n) + rest);
    FieldOfDigits(n, rest);
  }

  /** A gap that separates two fields: it starts with whitespace. */
  predicate Separator(gap: seq<GapItem>) {
    gap != [] && gap[0].Blank? && forall i :: 0 <= i < |gap| ==> ValidItem(gap[i])
  }

  lemma SeparatorStarts(gap: seq<GapItem>, rest: seq<Byte>)
    requires Separator(gap)
    ensures GapBytes(gap) + rest != [] && IsSpace((GapBytes(gap) + rest)[0])
  {
    assert ValidItem(gap[0]);
  }

  /** A P6 file: any gaps, one whitespace byte before the raster. */
  datatype P6 = P6(gap: seq<GapItem>, width: nat, gap1: seq<GapItem>, height: nat, gap2: seq<GapItem>, max: nat,
                   space: Byte, raster: seq<Byte>)

  predicate ValidP6(p: P6) {
    && (forall i :: 0 <= i < |p.gap| ==> ValidItem(p.gap[i]))
    && Separator(p.gap1) && Separator(p.gap2) && IsSpace(p.space)
    && |p.raster| >= p.width * p.height * 3
  }

  // The file from each field on.
  function FromMax(p: P6): seq<Byte> { GapBytes(p.gap2) + (Digits(p.max) + ([p.space] + p.raster)) }
  function FromHeight(p: P6): seq<Byte> { GapBytes(p.gap1) + (Digits(p.height) + FromMax(p)) }
  function FileOf(p: P6): seq<Byte> { [0x50, 0x36] + (GapBytes(p.gap) + (Digits(p.width) + FromHeight(p))) }

  /** The header reader recovers dimensions and raster from every P6 file. */
  lemma {:induction false} MaxRecovered(p: P6)
    requires ValidP6(p)
    ensures ParseMax(p.width, p.height, FromMax(p)) == Some(Header(p.width, p.height, p.max, p.raster))
  {
    var e := [p.space] + p.raster;
    FieldRecovered(p.gap2, p.max, e);
    assert Cut(e, 1, |e| + 1) == p.raster;
  }

  lemma {:induction false} HeightRecovered(p: P6)
    requires ValidP6(p)
    ensures ParseHeight(p.width, FromHeight(p)) == Some(Header(p.width, p.height, p.max, p.raster))
  {
    SeparatorStarts(p.gap2, Digits(p.max) + ([p.space] + p.raster));
    FieldRecovered(p.gap1, p.height, FromMax(p));
    MaxRecovered(p);
  }

  lemma {:induction false} HeaderRecovered(p: P6)
    requires ValidP6(p)
    ensures ParseHeader(FileOf(p)) == Some(Header(p.width, p.height, p.max, p.raster))
  {
    var d := FileOf(p);
    assert d[..2] == [0x50, 0x36] && d[2..] == GapBytes(p.gap) + (Digits(p.width) + FromHeight(p));
    SeparatorStarts(p.gap1, Digits(p.height) + FromMax(p));
    FieldRecovered(p.gap, p.width, FromHeight(p));
    HeightRecovered(p);
  }

  // ---------------------------------------------------------------- writing

  /** Filter-0 scanlines. */
  function ScanOf(raw: seq<Byte>, stride: nat, h: nat): seq<Byte>
    decreases h
  {
    if h == 0 then [] else [0] + Cut(raw, 0, stride) + ScanOf(Cut(raw, stride, stride + |raw|), stride, h - 1)
  }

  function HeaderChunk(w: nat, h: nat, crc: seq<Byte>): Chunk
    requires w < TWO32 && h < TWO32
  {
    Chunk(IHDR, Big(w) + Big(h) + [8, 2, 0, 0, 0], crc)
  }

  /** The three checksums of the file. */
  datatype Crcs = Crcs(ihdr: seq<Byte>, idat: seq<Byte>, iend: seq<Byte>)

  predicate ValidCrcs(c: Crcs) {
    |c.ihdr| == 4 && |c.idat| == 4 && |c.iend| == 4
  }

  function FileBytes(w: nat, h: nat, z: seq<Byte>, c: Crcs): seq<Byte>
    requires w < TWO32 && h < TWO32 && |z| < TWO32 && ValidCrcs(c)
  {
    SIGNATURE + Framed(HeaderChunk(w, h, c.ihdr)) + Framed(Chunk(IDAT, z, c.idat)) + Framed(Chunk(IEND, [], c.iend))
  }

  /** The bytes of a raster of `w` by `h` pixels. */
  function Area(w: nat, h: nat): nat {
    MulNonNegative(w, h);
    w * h * 3
  }

  /** The file up to the compressed stream: signature, and the header chunk of an 8-bit RGB picture. */
  lemma FileStarts(w: nat, h: nat, z: seq<Byte>, c: Crcs)
    requires w < TWO32 && h < TWO32 && |z| < TWO32 && ValidCrcs(c)
    ensures var ihdr := [0, 0, 0, 13] + Ascii("IHDR") + HeaderBytes(w, h, 8, 2, [0, 0, 0]) + c.ihdr;
            FileBytes(w, h, z, c) == [0x89] + Ascii("PNG") + [13, 10, 26, 10] + ihdr
                                     + (Big(|z|) + Ascii("IDAT") + z + c.idat) + ([0, 0, 0, 0] + Ascii("IEND") + [] + c.iend)
  {
    NamesSpelt();
    assert Big(13) == [0, 0, 0, 13] && Big(0) == [0, 0, 0, 0];
    assert Big(w) + Big(h) + [8, 2, 0, 0, 0] == HeaderBytes(w, h, 8, 2, [0, 0, 0]);
  }

  /** What is written once the dimensions are known; None if the compressed stream is too long. */
  ghost function Written(w: nat, h: nat, rest: seq<Byte>, deflate: Deflate, c: Crcs): Option<seq<Byte>>
    requires w < TWO32 && h < TWO32 && ValidCrcs(c)
  {
    var z := deflate(ScanOf(Cut(rest, 0, Area(w, h)), w * 3, h));
    if |z| >= TWO32 then None else Some(FileBytes(w, h, z, c))
  }

  /** What ppm_to_png writes; None stands for any of Python's exceptions. */
  ghost function Convert(d: seq<Byte>, deflate: Deflate, c: Crcs): Option<seq<Byte>>
    requires ValidCrcs(c)
  {
    var p := ParseHeader(d);
    if p.None? || !(0 <= p.value.width < TWO32) || !(0 <= p.value.height < TWO32) then None
    else Written(p.value.width, p.value.height, p.value.rest, deflate, c)
  }

  /** The scanline loop of ppm_to_png; `at` is y * w * 3. */
  method WriteScan(raw: seq<Byte>, stride: nat, h: nat) returns (scan: seq<Byte>)
    ensures scan == ScanOf(raw, stride, h)
  {
    scan := [];
    var y, at := 0, 0;
    assert Cut(raw, 0, |raw|) == raw;
    while y < h
      invariant 0 <= y <= h && at == y * stride
      invariant scan + ScanOf(Cut(raw, at, at + |raw|), stride, h - y) == ScanOf(raw, stride, h)
    {
      ScanStep(raw, at, stride, h - y, scan);
      scan := scan + [0] + Cut(raw, at, at + stride);
      assert (y + 1) * stride == at + stride;
      y, at := y + 1, at + stride;
    }
    assert scan + [] == scan;
  }

  lemma ScanStep(raw: seq<Byte>, at: nat, stride: nat, h: nat, scan: seq<Byte>)
    requires h > 0
    ensures scan + ScanOf(Cut(raw, at, at + |raw|), stride, h)
         == (scan + [0] + Cut(raw, at, at + stride)) + ScanOf(Cut(raw, at + stride, at + stride + |raw|), stride, h - 1)
  {
    CutTwice(raw, at, stride);
    var rest := ScanOf(Cut(raw, at + stride, at + stride + |raw|), stride, h - 1);
    assert scan + ([0] + Cut(raw, at, at + stride) + rest) == (scan + [0] + Cut(raw, at, at + stride)) + rest;
  }

  lemma CutTwice(raw: seq<Byte>, at: nat, n: nat)
    ensures var s := Cut(raw, at, at + |raw|);
            Cut(s, 0, n) == Cut(raw, at, at + n) && Cut(s, n, n + |s|) == Cut(raw, at + n, at + n + |raw|)
  {
  }

  /** ppm_to_png. */
  method PpmToPng(d: seq<Byte>, deflate: Deflate, c: Crcs) returns (r: Option<seq<Byte>>)
    requires ValidCrcs(c)
    ensures r == Convert(d, deflate, c)
  {
    var p := ReadHeader(d);
    if p.None? {
      return None;
    }
    var w, h := p.value.width, p.value.height;
    if w < 0 || w >= TWO32 || h < 0 || h >= TWO32 {
      return None;
    }
    var raw := Cut(p.value.rest, 0, Area(w, h));
    var scan := WriteScan(raw, w * 3, h);
    var z := deflate(scan);
    if |z| >= TWO32 {
      return None;
    }
    return Some(SIGNATURE + Framed(HeaderChunk(w, h, c.ihdr)) + Framed(Chunk(IDAT, z, c.idat)) + Framed(Chunk(IEND, [], c.iend)));
  }

  /** A file that does not start with P6 is refused. */
  lemma OthersRefused(d: seq<Byte>, deflate: Deflate, c: Crcs)
    requires ValidCrcs(c) && (|d| < 2 || d[..2] != Ascii("P6"))
    ensures Convert(d, deflate, c) == None
  {
    assert Ascii("P6") == [0x50, 0x36];
  }

  // ---------------------------------------------------------------- round trip

  lemma {:induction false} PlainRow(line: seq<Byte>, prev: seq<Byte>, bpp: nat, n: nat)
    requires bpp > 0 && |line| == |prev| && n <= |line|
    ensures Unfilter(0, line, prev, bpp, n) == line[..n]
    decreases n
  {
    if n > 0 {
      PlainRow(line, prev, bpp, n - 1);
      assert line[..n] == line[..n - 1] + [line[n - 1]];
    }
  }

  /** The first scanline of a scan is the first row of the raster. */
  lemma {:induction false} ScanFront(row: seq<Byte>, rest: seq<Byte>, stride: nat, h: nat, bpp: nat, prev: seq<Byte>)
    requires bpp > 0 && |prev| == stride == |row|
    ensures DecodeRows(ScanOf(row + rest, stride, h + 1), h + 1, stride, bpp, prev)
         == Prepend(row, DecodeRows(ScanOf(rest, stride, h), h, stride, bpp, row))
  {
    var raw := row + rest;
    assert Cut(raw, 0, stride) == row && Cut(raw, stride, stride + |raw|) == rest;
    DecodeFront(0, row, ScanOf(rest, stride, h), h, stride, bpp, prev);
    PlainRow(row, prev, bpp, stride);
    assert row[..stride] == row;
  }

  lemma {:induction false} ScanRecovered(raw: seq<Byte>, stride: nat, h: nat, bpp: nat, prev: seq<Byte>)
    requires bpp > 0 && |prev| == stride && |raw| == h * stride
    ensures DecodeRows(ScanOf(raw, stride, h), h, stride, bpp, prev) == Some(raw)
    decreases h
  {
    if h > 0 {
      assert h * stride == (h - 1) * stride + stride;
      MulNonNegative(h - 1, stride);
      var row, rest := raw[..stride], raw[stride..];
      assert raw == row + rest;
      ScanFront(row, rest, stride, h - 1, bpp, prev);
      ScanRecovered(rest, stride, h - 1, bpp, row);
    }
  }

  lemma HeaderBody(w: nat, h: nat)
    requires w < TWO32 && h < TWO32
    ensures var b := Big(w) + Big(h) + [8, 2, 0, 0, 0];
            |b| == 13 && UnBig(b[..4]) == w && UnBig(b[4..8]) == h && b[9] == 2
  {
    var b := Big(w) + Big(h) + [8, 2, 0, 0, 0];
    UnBigBig(w);
    UnBigBig(h);
    assert b[..4] == Big(w) && b[4..8] == Big(h);
  }

  /** The reader finds the writer's dimensions and pixel stream. */
  lemma {:induction false} FileCollected(w: nat, h: nat, z: seq<Byte>, c: Crcs)
    requires w < TWO32 && h < TWO32 && |z| < TWO32 && ValidCrcs(c)
    ensures Cut(FileBytes(w, h, z, c), 0, 8) == SIGNATURE
    ensures Collect(FileBytes(w, h, z, c)[8..], NOTHING) == Some(Meta(Some((w, h, 2)), z))
  {
    var ihdr, idat, iend := HeaderChunk(w, h, c.ihdr), Chunk(IDAT, z, c.idat), Chunk(IEND, [], c.iend);
    TwoFrames(ihdr, idat);
    AfterSignature(Framed(ihdr), Framed(idat), Framed(iend));
    ChunksRecovered([ihdr, idat], iend, [], NOTHING);
    FileAbsorbed(w, h, z, c);
  }

  lemma AfterSignature(a: seq<Byte>, b: seq<Byte>, c: seq<Byte>)
    ensures Cut(SIGNATURE + a + b + c, 0, 8) == SIGNATURE
    ensures (SIGNATURE + a + b + c)[8..] == a + b + c + []
  {
  }

  lemma TwoFrames(a: Chunk, b: Chunk)
    requires ValidChunk(a) && ValidChunk(b)
    ensures Frames([a, b]) == Framed(a) + Framed(b)
  {
    assert [a, b][1..] == [b] && [b][1..] == [];
    assert Frames([b]) == Framed(b) + Frames([]);
  }

  /** What the reader learns from the two chunks before IEND. */
  lemma FileAbsorbed(w: nat, h: nat, z: seq<Byte>, c: Crcs)
    requires w < TWO32 && h < TWO32 && |z| < TWO32 && ValidCrcs(c)
    ensures AbsorbAll(NOTHING, [HeaderChunk(w, h, c.ihdr), Chunk(IDAT, z, c.idat)]) == Some(Meta(Some((w, h, 2)), z))
  {
    var ihdr, idat := HeaderChunk(w, h, c.ihdr), Chunk(IDAT, z, c.idat);
    var m1 := Meta(Some((w, h, 2)), []);
    HeaderBody(w, h);
    assert Absorb(NOTHING, IHDR, ihdr.body) == Some(m1);
    assert [ihdr, idat][1..] == [idat] && [idat][1..] == [];
    assert [] + z == z;
    assert AbsorbAll(m1, [idat]) == AbsorbAll(m1.(idat := z), []);
  }

  /** The raster proper: width * height pixels of three bytes. */
  function Raster(p: P6): (raw: seq<Byte>)
    requires ValidP6(p)
    ensures |raw| == p.height * (p.width * 3)
  {
    MulNonNegative(p.width, p.height);
    assert p.width * p.height * 3 == p.height * (p.width * 3);
    p.raster[..p.width * p.height * 3]
  }

  /** The bytes handed to the compressor for a P6 file. */
  function ScanOfP6(p: P6): seq<Byte>
    requires ValidP6(p)
  {
    ScanOf(Raster(p), p.width * 3, p.height)
  }

  lemma {:induction false} Converted(p: P6, deflate: Deflate, c: Crcs)
    requires ValidP6(p) && ValidCrcs(c) && p.width < TWO32 && p.height < TWO32 && |deflate(ScanOfP6(p))| < TWO32
    ensures Convert(FileOf(p), deflate, c) == Some(FileBytes(p.width, p.height, deflate(ScanOfP6(p)), c))
  {
    HeaderRecovered(p);
    MulNonNegative(p.width, p.height);
    assert Cut(p.raster, 0, p.width * p.height * 3) == Raster(p);
  }

  lemma FileDecoded(w: nat, h: nat, z: seq<Byte>, raw: seq<Byte>, c: Crcs, inflate: Inflate)
    requires w < TWO32 && h < TWO32 && |z| < TWO32 && ValidCrcs(c)
    requires |raw| == h * (w * 3) && inflate(z) == Some(ScanOf(raw, w * 3, h))
    ensures Decode(FileBytes(w, h, z, c), inflate) == Some(Picture(w, h, 3, raw))
  {
    FileCollected(w, h, z, c);
    ScanRecovered(raw, w * 3, h, 3, Zeros(w * 3));
  }

  /**
   Decoding what ppm_to_png writes gives back the P6 file's dimensions and raster, for
   every P6 file on which zlib's inflate undoes its deflate.
   */
  lemma PpmRoundTrip(p: P6, deflate: Deflate, inflate: Inflate, c: Crcs, png: seq<Byte>)
    requires ValidP6(p) && ValidCrcs(c) && p.width < TWO32 && p.height < TWO32
    requires |deflate(ScanOfP6(p))| < TWO32 && inflate(deflate(ScanOfP6(p))) == Some(ScanOfP6(p))
    requires png == FileBytes(p.width, p.height, deflate(ScanOfP6(p)), c)
    ensures Convert(FileOf(p), deflate, c) == Some(png)
    ensures Decode(png, inflate) == Some(Picture(p.width, p.height, 3, Raster(p)))
  {
    Converted(p, deflate, c);
    FileDecoded(p.width, p.height, deflate(ScanOfP6(p)), Raster(p), c, inflate);
  }
}
