/**
 The PNG reader of tools/analyze_screen.py: signature, chunk walk, concatenated IDAT data,
 inflate, and row-by-row unfiltering.  zlib is a parameter: `inflate` is whatever the
 library does with a stream.
 */
module Png {
  import opened Bytes
  import opened PngFilter

  const SIGNATURE: seq<Byte> := [0x89, 0x50, 0x4E, 0x47, 0x0D, 0x0A, 0x1A, 0x0A]
  const IHDR: seq<Byte> := [0x49, 0x48, 0x44, 0x52]
  const IDAT: seq<Byte> := [0x49, 0x44, 0x41, 0x54]
  const IEND: seq<Byte> := [0x49, 0x45, 0x4E, 0x44]

  type Inflate = seq<Byte> -> Option<seq<Byte>>

  datatype Picture = Picture(width: nat, height: nat, bpp: nat, pixels: seq<Byte>)

  // ---------------------------------------------------------------- big-endian words

  function Big(n: nat): (b: seq<Byte>)
    requires n < TWO32
    ensures |b| == 4
  {
    [n / 0x100_0000, n / 0x1_0000 % 256, n / 256 % 256, n % 256]
  }

  function UnBig(b: seq<Byte>): nat
    requires |b| == 4
  {
    var b0: int, b1: int, b2: int, b3: int := b[0], b[1], b[2], b[3];
    b0 * 0x100_0000 + b1 * 0x1_0000 + b2 * 256 + b3
  }

  lemma UnBigBig(n: nat)
    requires n < TWO32
    ensures UnBig(Big(n)) == n
  {
    var x, y := n / 256, n / 0x1_0000;
    assert x / 256 == y && y / 256 == n / 0x100_0000;
    assert n == 256 * x + n % 256 && x == 256 * y + x % 256 && y == 256 * (y / 256) + y % 256;
  }

  // ---------------------------------------------------------------- scanlines

  /**
   A row cut off by the end of the stream.  An index error stops the reader unless this is
   the last row, its filter never reads the row itself, and at most `bpp` bytes are missing.
   */
  function ShortRow(raw: seq<Byte>, rows: nat, stride: nat, bpp: nat): Option<seq<Byte>> {
    if rows == 1 && raw != [] && (raw[0] == 0 || raw[0] > 4) && |raw| - 1 + bpp >= stride then Some(raw[1..]) else None
  }

  /** Rows read from the front of the inflated stream. */
  function DecodeRows(raw: seq<Byte>, rows: nat, stride: nat, bpp: nat, prev: seq<Byte>): Option<seq<Byte>>
    requires bpp > 0 && |prev| == stride
    decreases rows
  {
    if rows == 0 then Some([])
    else if |raw| < 1 + stride then ShortRow(raw, rows, stride, bpp)
    else
      var row := Unfilter(raw[0], raw[1..1 + stride], prev, bpp, stride);
      var rest := DecodeRows(raw[1 + stride..], rows - 1, stride, bpp, row);
      Prepend(row, rest)
  }

  function Prepend(row: seq<Byte>, rest: Option<seq<Byte>>): Option<seq<Byte>> {
    if rest.None? then None else Some(row + rest.value)
  }

  lemma PrependTwice(a: seq<Byte>, b: seq<Byte>, rest: Option<seq<Byte>>)
    ensures Prepend([], rest) == rest
    ensures Prepend(a, Prepend(b, rest)) == Prepend(a + b, rest)
  {
    if rest.Some? {
      assert [] + rest.value == rest.value;
      assert a + (b + rest.value) == (a + b) + rest.value;
    }
  }

  /** The stream an encoder writes when it picks filter fts[i] for row i. */
  function EncodeRows(rows: seq<seq<Byte>>, fts: seq<Byte>, stride: nat, bpp: nat, prev: seq<Byte>): seq<Byte>
    requires bpp > 0 && |prev| == stride && |fts| == |rows| && forall r :: r in rows ==> |r| == stride
    decreases |rows|
  {
    if rows == [] then []
    else [fts[0]] + Filter(fts[0], rows[0], prev, bpp) + EncodeRows(rows[1..], fts[1..], stride, bpp, rows[0])
  }

  function Flatten(rows: seq<seq<Byte>>): seq<Byte> {
    if rows == [] then [] else rows[0] + Flatten(rows[1..])
  }

  /** One row split off the front of the stream. */
  lemma DecodeFront(ft: Byte, f: seq<Byte>, rest: seq<Byte>, rows: nat, stride: nat, bpp: nat, prev: seq<Byte>)
    requires bpp > 0 && |prev| == stride == |f|
    ensures var row := Unfilter(ft, f, prev, bpp, stride);
            DecodeRows([ft] + f + rest, rows + 1, stride, bpp, prev) == Prepend(row, DecodeRows(rest, rows, stride, bpp, row))
  {
    var raw := [ft] + f + rest;
    assert raw[0] == ft && raw[1..1 + stride] == f && raw[1 + stride..] == rest;
  }

  /** Decoding recovers the rows under every per-row choice of filter. */
  lemma {:induction false} RowsRecovered(rows: seq<seq<Byte>>, fts: seq<Byte>, stride: nat, bpp: nat, prev: seq<Byte>)
    requires bpp > 0 && |prev| == stride && |fts| == |rows| && forall r :: r in rows ==> |r| == stride
    ensures DecodeRows(EncodeRows(rows, fts, stride, bpp, prev), |rows|, stride, bpp, prev) == Some(Flatten(rows))
    decreases |rows|
  {
    if rows != [] {
      var f, rest := Filter(fts[0], rows[0], prev, bpp), EncodeRows(rows[1..], fts[1..], stride, bpp, rows[0]);
      DecodeFront(fts[0], f, rest, |rows| - 1, stride, bpp, prev);
      UnfilterFilter(fts[0], rows[0], prev, bpp, stride);
      assert rows[0][..stride] == rows[0];
      RowsRecovered(rows[1..], fts[1..], stride, bpp, rows[0]);
    }
  }

  function Zeros(n: nat): (z: seq<Byte>)
    ensures |z| == n
  {
    seq(n, _ => 0)
  }

  /** Mid-scan: `out` has been decoded, the rest starts at `pos`, and together they make `goal`. */
  ghost predicate ScanAt(raw: seq<Byte>, pos: nat, rows: nat, stride: nat, bpp: nat, prev: seq<Byte>,
                         out: seq<Byte>, goal: Option<seq<Byte>>)
    requires bpp > 0
  {
    && pos <= |raw| && |prev| == stride
    && goal == Prepend(out, DecodeRows(raw[pos..], rows, stride, bpp, prev))
  }

  /** One turn of the row loop: the scanline at `pos`, unfiltered. */
  method DecodeRow(raw: seq<Byte>, pos: nat, stride: nat, bpp: nat, prev: seq<Byte>,
                   ghost rows: nat, ghost out: seq<Byte>, ghost goal: Option<seq<Byte>>) returns (row: seq<Byte>)
    requires bpp > 0 && pos + 1 + stride <= |raw| && ScanAt(raw, pos, rows + 1, stride, bpp, prev, out, goal)
    ensures ScanAt(raw, pos + 1 + stride, rows, stride, bpp, row, out + row, goal)
  {
    var line := new Byte[stride](i requires 0 <= i < stride => raw[pos + 1 + i]);
    ghost var f := line[..];
    UnfilterInPlace(line, raw[pos], prev, bpp);
    row := line[..];
    assert raw[pos..] == [raw[pos]] + f + raw[pos + 1 + stride..];
    DecodeFront(raw[pos], f, raw[pos + 1 + stride..], rows, stride, bpp, prev);
    PrependTwice(out, row, DecodeRows(raw[pos + 1 + stride..], rows, stride, bpp, row));
  }

  lemma ScanStarts(raw: seq<Byte>, rows: nat, stride: nat, bpp: nat, prev: seq<Byte>)
    requires bpp > 0 && |prev| == stride
    ensures ScanAt(raw, 0, rows, stride, bpp, prev, [], DecodeRows(raw, rows, stride, bpp, prev))
  {
    assert raw[0..] == raw;
    PrependTwice([], [], DecodeRows(raw, rows, stride, bpp, prev));
  }

  lemma ScanEnds(raw: seq<Byte>, pos: nat, rows: nat, stride: nat, bpp: nat, prev: seq<Byte>,
                 out: seq<Byte>, goal: Option<seq<Byte>>)
    requires bpp > 0 && ScanAt(raw, pos, rows, stride, bpp, prev, out, goal)
    ensures rows == 0 ==> goal == Some(out)
    ensures rows > 0 && |raw| - pos < 1 + stride ==> goal == Prepend(out, ShortRow(raw[pos..], rows, stride, bpp))
  {
    assert out + [] == out;
  }

  /** A row that is cut off: the loop over its bytes, with the indexing that can fail. */
  method DecodeShort(raw: seq<Byte>, pos: nat, rows: nat, stride: nat, bpp: nat) returns (r: Option<seq<Byte>>)
    requires bpp > 0 && rows > 0 && pos <= |raw| < pos + 1 + stride
    ensures r == ShortRow(raw[pos..], rows, stride, bpp)
  {
    if pos >= |raw| {
      return None;                                // raw[pos]
    }
    var ft, line := raw[pos], raw[pos + 1..];
    var x := 0;
    while x < stride
      invariant 0 <= x <= stride
      invariant x > bpp ==> x - 1 - bpp < |line|
      invariant 1 <= ft <= 4 ==> x <= |line|
    {
      if x >= bpp && x - bpp >= |line| {
        return None;                              // line[x - bpp]
      }
      if 1 <= ft <= 4 && x >= |line| {
        return None;                              // line[x]
      }
      x := x + 1;
    }
    if rows > 1 {
      return None;                                // raw[pos] of the next row
    }
    return Some(line);
  }

  /** The row loop of decode_png. */
  method DecodeScan(raw: seq<Byte>, height: nat, stride: nat, bpp: nat) returns (r: Option<seq<Byte>>)
    requires bpp > 0
    ensures r == DecodeRows(raw, height, stride, bpp, Zeros(stride))
  {
    var out: seq<Byte> := [];
    var prev := Zeros(stride);
    var pos, y := 0, 0;
    ghost var goal := DecodeRows(raw, height, stride, bpp, prev);
    ScanStarts(raw, height, stride, bpp, prev);
    while y < height
      invariant 0 <= y <= height && 0 <= pos
      invariant ScanAt(raw, pos, height - y, stride, bpp, prev, out, goal)
    {
      ScanEnds(raw, pos, height - y, stride, bpp, prev, out, goal);
      if |raw| - pos < 1 + stride {
        var last := DecodeShort(raw, pos, height - y, stride, bpp);
        return Prepend(out, last);
      }
      prev := DecodeRow(raw, pos, stride, bpp, prev, height - y - 1, out, goal);
      pos := pos + 1 + stride;
      out := out + prev;
      y := y + 1;
    }
    ScanEnds(raw, pos, 0, stride, bpp, prev, out, goal);
    return Some(out);
  }

  // ---------------------------------------------------------------- chunks

  datatype Chunk = Chunk(kind: seq<Byte>, body: seq<Byte>, crc: seq<Byte>)

  predicate ValidChunk(c: Chunk) {
    |c.kind| == 4 && |c.body| < TWO32 && |c.crc| == 4
  }

  function Framed(c: Chunk): seq<Byte>
    requires ValidChunk(c)
  {
    Big(|c.body|) + c.kind + c.body + c.crc
  }

  /** What the chunk walk has learnt so far; `header` is width, height and colour type. */
  datatype Meta = Meta(header: Option<(nat, nat, nat)>, idat: seq<Byte>)

  const NOTHING: Meta := Meta(None, [])

  function Absorb(m: Meta, kind: seq<Byte>, body: seq<Byte>): Option<Meta> {
    if kind == IHDR then
      if |body| < 10 then None
      else Some(m.(header := Some((UnBig(body[..4]), UnBig(body[4..8]), body[9] as nat))))
    else if kind == IDAT then Some(m.(idat := m.idat + body))
    else Some(m)
  }

  /** A Python slice: out-of-range bounds are cut to the data. */
  function Cut(d: seq<Byte>, i: nat, j: nat): seq<Byte>
    requires i <= j
  {
    d[Min(i, |d|)..Min(j, |d|)]
  }

  function Collect(d: seq<Byte>, m: Meta): Option<Meta>
    decreases |d|, m
  {
    if d == [] then Some(m)
    else if |d| < 4 then None
    else
      var n := UnBig(d[..4]);
      var kind := Cut(d, 4, 8);
      if kind == IEND then Some(m)
      else
        var m' := Absorb(m, kind, Cut(d, 8, 8 + n));
        if m'.None? then None else Collect(Cut(d, 12 + n, |d| + 12 + n), m'.value)
  }

  function Frames(list: seq<Chunk>): seq<Byte>
    requires forall i :: 0 <= i < |list| ==> ValidChunk(list[i])
  {
    if list == [] then [] else Framed(list[0]) + Frames(list[1..])
  }

  function AbsorbAll(m: Meta, list: seq<Chunk>): Option<Meta>
    decreases |list|
  {
    if list == [] then Some(m) else
    var m' := Absorb(m, list[0].kind, list[0].body);
    if m'.None? then None else AbsorbAll(m'.value, list[1..])
  }

  lemma FramedParts(c: Chunk, rest: seq<Byte>)
    requires ValidChunk(c)
    ensures var d := Framed(c) + rest; var n := |c.body|;
            && |d| >= 12 + n && UnBig(d[..4]) == n && Cut(d, 4, 8) == c.kind && Cut(d, 8, 8 + n) == c.body
            && Cut(d, 12 + n, |d| + 12 + n) == rest
  {
    UnBigBig(|c.body|);
    var d, n := Framed(c) + rest, |c.body|;
    assert d[..4] == Big(n) && d[4..8] == c.kind && d[8..8 + n] == c.body && d[12 + n..] == rest;
  }

  /** The walk sees exactly the chunks up to the first IEND. */
  lemma {:induction false} ChunksRecovered(list: seq<Chunk>, end: Chunk, rest: seq<Byte>, m: Meta)
    requires forall i :: 0 <= i < |list| ==> ValidChunk(list[i]) && list[i].kind != IEND
    requires ValidChunk(end) && end.kind == IEND
    ensures Collect(Frames(list) + Framed(end) + rest, m) == AbsorbAll(m, list)
    decreases |list|
  {
    if list == [] {
      assert Frames(list) + Framed(end) + rest == Framed(end) + rest;
      FramedParts(end, rest);
    } else {
      var tail := Frames(list[1..]) + Framed(end) + rest;
      assert Frames(list) + Framed(end) + rest == Framed(list[0]) + tail;
      FramedParts(list[0], tail);
      var m' := Absorb(m, list[0].kind, list[0].body);
      if m'.Some? {
        ChunksRecovered(list[1..], end, rest, m'.value);
      }
    }
  }

  // ---------------------------------------------------------------- the decoder

  /** What the file says: None stands for any of Python's exceptions. */
  ghost function Decode(d: seq<Byte>, inflate: Inflate): Option<Picture> {
    if Cut(d, 0, 8) != SIGNATURE then None else DecodeBody(d[8..], inflate)
  }

  ghost function DecodeBody(d: seq<Byte>, inflate: Inflate): Option<Picture> {
    var m := Collect(d, NOTHING);
    if m.None? || m.value.header.None? then None else Render(m.value, inflate)
  }

  function BytesPerPixel(colour: nat): Option<nat> {
    if colour == 2 then Some(3) else if colour == 6 then Some(4) else None
  }

  ghost function Render(m: Meta, inflate: Inflate): Option<Picture>
    requires m.header.Some?
  {
    var (w, h, colour) := m.header.value;
    var bpp := BytesPerPixel(colour);
    var raw := inflate(m.idat);
    if bpp.None? || raw.None? then None else
    var px := DecodeRows(raw.value, h, w * bpp.value, bpp.value, Zeros(w * bpp.value));
    if px.None? then None else Some(Picture(w, h, bpp.value, px.value))
  }

  /** The IDAT bodies of a list of chunks, in file order. */
  function IdatOf(list: seq<Chunk>): seq<Byte>
    decreases |list|
  {
    if list == [] then [] else (if list[0].kind == Ascii("IDAT") then list[0].body else []) + IdatOf(list[1..])
  }

  /** The names of chunks and the signature of the file. */
  lemma NamesSpelt()
    ensures SIGNATURE == [0x89] + Ascii("PNG") + [13, 10, 26, 10]
    ensures IHDR == Ascii("IHDR") && IDAT == Ascii("IDAT") && IEND == Ascii("IEND")
    ensures IHDR != IDAT && IDAT != IEND && IHDR != IEND
  {
    var png := Ascii("PNG");
    assert png == [0x50, 0x4E, 0x47];
    assert [0x89] + [0x50, 0x4E, 0x47] + [13, 10, 26, 10] == SIGNATURE;
    assert IHDR[1] != IDAT[1] && IDAT[1] != IEND[1] && IHDR[1] != IEND[1];
  }

  /** Chunks that are no headers add their IDAT bodies to the stream, in order, and nothing else. */
  lemma {:induction false} StreamAbsorbed(m: Meta, list: seq<Chunk>)
    requires forall i :: 0 <= i < |list| ==> list[i].kind != IHDR
    ensures AbsorbAll(m, list) == Some(m.(idat := m.idat + IdatOf(list)))
    decreases |list|
  {
    NamesSpelt();
    if list == [] {
      assert m.idat + [] == m.idat;
    } else {
      var more := if list[0].kind == IDAT then list[0].body else [];
      assert m.idat + (more + IdatOf(list[1..])) == (m.idat + more) + IdatOf(list[1..]);
      assert m.idat + [] == m.idat;
      StreamAbsorbed(m.(idat := m.idat + more), list[1..]);
    }
  }

  /** An IHDR body: width, height, bit depth, colour type, and the three bytes the reader ignores. */
  function HeaderBytes(w: nat, h: nat, depth: Byte, colour: Byte, rest: seq<Byte>): (b: seq<Byte>)
    requires w < TWO32 && h < TWO32
    ensures |b| == 10 + |rest|
  {
    Big(w) + Big(h) + [depth, colour] + rest
  }

  lemma HeaderAbsorbed(m: Meta, w: nat, h: nat, depth: Byte, colour: Byte, rest: seq<Byte>)
    requires w < TWO32 && h < TWO32
    ensures Absorb(m, IHDR, HeaderBytes(w, h, depth, colour, rest)) == Some(m.(header := Some((w, h, colour as nat))))
  {
    var b := HeaderBytes(w, h, depth, colour, rest);
    assert b[..4] == Big(w) && b[4..8] == Big(h) && b[9] == colour;
    UnBigBig(w);
    UnBigBig(h);
  }

  /**
   Every 8-bit RGB or RGBA image decodes to its pixels, whatever filter each row uses, however
   its stream is cut into IDAT chunks and whatever other chunks stand between them, as long as
   inflating the IDAT bodies, joined in file order, gives the filtered rows.
   */
  lemma ImageRecovered(ihdr: Chunk, others: seq<Chunk>, end: Chunk, tail: seq<Byte>,
                       w: nat, depth: Byte, colour: Byte, rest: seq<Byte>, bpp: nat,
                       rows: seq<seq<Byte>>, fts: seq<Byte>, inflate: Inflate)
    requires w < TWO32 && |rows| < TWO32 && ((colour == 2 && bpp == 3) || (colour == 6 && bpp == 4))
    requires ValidChunk(ihdr) && ihdr.kind == Ascii("IHDR") && ihdr.body == HeaderBytes(w, |rows|, depth, colour, rest)
    requires forall i :: 0 <= i < |others| ==> ValidChunk(others[i]) && others[i].kind != IHDR && others[i].kind != IEND
    requires ValidChunk(end) && end.kind == Ascii("IEND")
    requires |fts| == |rows| && forall r :: r in rows ==> |r| == w * bpp
    requires inflate(IdatOf(others)) == Some(EncodeRows(rows, fts, w * bpp, bpp, Zeros(w * bpp)))
    ensures Decode([0x89] + Ascii("PNG") + [13, 10, 26, 10] + (Frames([ihdr] + others) + Framed(end) + tail), inflate)
         == Some(Picture(w, |rows|, bpp, Flatten(rows)))
  {
    var list, m := [ihdr] + others, Meta(Some((w, |rows|, colour as nat)), IdatOf(others));
    NamesSpelt();
    HeaderAbsorbed(NOTHING, w, |rows|, depth, colour, rest);
    StreamAbsorbed(Meta(m.header, []), others);
    assert list[1..] == others && [] + IdatOf(others) == IdatOf(others);
    assert AbsorbAll(NOTHING, list) == Some(m);
    ChunksDecoded(list, end, tail, m, colour, bpp, w, rows, fts, inflate);
  }

  /** The same for any chunks from which the walk gathers `m`. */
  lemma ChunksDecoded(list: seq<Chunk>, end: Chunk, rest: seq<Byte>, m: Meta, colour: nat, bpp: nat, w: nat,
                      rows: seq<seq<Byte>>, fts: seq<Byte>, inflate: Inflate)
    requires forall i :: 0 <= i < |list| ==> ValidChunk(list[i]) && list[i].kind != IEND
    requires ValidChunk(end) && end.kind == IEND
    requires AbsorbAll(NOTHING, list) == Some(m) && m.header == Some((w, |rows|, colour))
    requires BytesPerPixel(colour) == Some(bpp)
    requires |fts| == |rows| && forall r :: r in rows ==> |r| == w * bpp
    requires inflate(m.idat) == Some(EncodeRows(rows, fts, w * bpp, bpp, Zeros(w * bpp)))
    ensures Decode(SIGNATURE + (Frames(list) + Framed(end) + rest), inflate) == Some(Picture(w, |rows|, bpp, Flatten(rows)))
  {
    SignedFile(Frames(list) + Framed(end) + rest, inflate);
    ChunksRecovered(list, end, rest, NOTHING);
    RowsRendered(m, colour, bpp, w, rows, fts, inflate);
  }

  /** A file that does not start with the signature is refused. */
  lemma UnsignedRefused(d: seq<Byte>, inflate: Inflate)
    requires |d| < 8 || d[..8] != [0x89] + Ascii("PNG") + [13, 10, 26, 10]
    ensures Decode(d, inflate) == None
  {
    NamesSpelt();
  }

  /** A picture of any other colour type is refused. */
  lemma OtherColoursRefused(m: Meta, inflate: Inflate)
    requires m.header.Some? && m.header.value.2 != 2 && m.header.value.2 != 6
    ensures Render(m, inflate) == None
  {
  }

  lemma SignedFile(tail: seq<Byte>, inflate: Inflate)
    ensures Decode(SIGNATURE + tail, inflate) == DecodeBody(tail, inflate)
  {
    var d := SIGNATURE + tail;
    assert Cut(d, 0, 8) == SIGNATURE && d[8..] == tail;
  }

  lemma RowsRendered(m: Meta, colour: nat, bpp: nat, w: nat, rows: seq<seq<Byte>>, fts: seq<Byte>, inflate: Inflate)
    requires m.header == Some((w, |rows|, colour)) && BytesPerPixel(colour) == Some(bpp)
    requires |fts| == |rows| && forall r :: r in rows ==> |r| == w * bpp
    requires inflate(m.idat) == Some(EncodeRows(rows, fts, w * bpp, bpp, Zeros(w * bpp)))
    ensures Render(m, inflate) == Some(Picture(w, |rows|, bpp, Flatten(rows)))
  {
    RowsRecovered(rows, fts, w * bpp, bpp, Zeros(w * bpp));
  }

  /** Mid-walk: the walk goes on at `i` with `m` and will end with `goal`. */
  ghost predicate CollectAt(d: seq<Byte>, i: nat, m: Meta, goal: Option<Meta>) {
    goal == Collect(Cut(d, i, i + |d|), m)
  }

  /** One chunk at `i`: what is known after it, and whether the walk is over. */
  datatype Turn = Over(result: Option<Meta>) | Next(m: Meta, i: nat)

  /** One turn of the chunk loop. */
  method ReadChunk(d: seq<Byte>, i: nat, m: Meta, ghost goal: Option<Meta>) returns (t: Turn)
    requires i < |d| && CollectAt(d, i, m, goal)
    ensures t.Over? ==> t.result == goal
    ensures t.Next? ==> t.i > i && CollectAt(d, t.i, t.m, goal)
  {
    CollectTurn(d, i, m, goal);
    if |d| - i < 4 {
      return Over(None);
    }
    var length := UnBig(d[i..i + 4]);
    var kind, body := Cut(d, i + 4, i + 8), Cut(d, i + 8, i + 8 + length);
    if kind == IEND {
      return Over(Some(m));
    }
    var m' := Absorb(m, kind, body);
    if m'.None? {
      return Over(None);
    }
    return Next(m'.value, i + 12 + length);
  }

  /** The chunk loop of decode_png. */
  method CollectChunks(d: seq<Byte>) returns (r: Option<Meta>)
    requires |d| >= 8
    ensures r == Collect(d[8..], NOTHING)
  {
    var m, i := NOTHING, 8;
    ghost var goal := Collect(d[8..], NOTHING);
    assert Cut(d, 8, 8 + |d|) == d[8..];
    while i < |d|
      invariant 8 <= i
      invariant CollectAt(d, i, m, goal)
      decreases |d| - i
    {
      var t := ReadChunk(d, i, m, goal);
      if t.Over? {
        return t.result;
      }
      m, i := t.m, t.i;
    }
    CollectEnd(d, i, m, goal);
    return Some(m);
  }

  lemma CollectEnd(d: seq<Byte>, i: nat, m: Meta, goal: Option<Meta>)
    requires i >= |d| && CollectAt(d, i, m, goal)
    ensures goal == Some(m)
  {
    assert Cut(d, i, i + |d|) == [];
  }

  lemma ShiftedCuts(d: seq<Byte>, i: nat, n: nat)
    requires i + 4 <= |d|
    ensures var s := d[i..];
            && s[..4] == d[i..i + 4] && Cut(s, 4, 8) == Cut(d, i + 4, i + 8) && Cut(s, 8, 8 + n) == Cut(d, i + 8, i + 8 + n)
            && Cut(s, 12 + n, |s| + 12 + n) == Cut(d, i + 12 + n, i + 12 + n + |d|)
  {
  }

  /** One turn of the chunk loop, on the file's own indices. */
  lemma {:induction false} CollectTurn(d: seq<Byte>, i: nat, m: Meta, goal: Option<Meta>)
    requires i < |d| && CollectAt(d, i, m, goal)
    ensures |d| - i < 4 ==> goal == None
    ensures |d| - i >= 4 ==>
              var n := UnBig(d[i..i + 4]);
              var kind, m' := Cut(d, i + 4, i + 8), Absorb(m, Cut(d, i + 4, i + 8), Cut(d, i + 8, i + 8 + n));
              if kind == IEND then goal == Some(m) else if m'.None? then goal == None
              else CollectAt(d, i + 12 + n, m'.value, goal)
  {
    assert Cut(d, i, i + |d|) == d[i..];
    if |d| - i >= 4 {
      ShiftedCuts(d, i, UnBig(d[i..i + 4]));
    }
  }

  /** decode_png on the bytes of the file. */
  method DecodePng(d: seq<Byte>, inflate: Inflate) returns (r: Option<Picture>)
    ensures r == Decode(d, inflate)
  {
    if |d| < 8 || d[..8] != SIGNATURE {
      return None;
    }
    var m := CollectChunks(d);
    if m.None? || m.value.header.None? {
      return None;
    }
    var (w, h, colour) := m.value.header.value;
    var bpp := BytesPerPixel(colour);
    if bpp.None? {
      return None;
    }
    var raw := inflate(m.value.idat);
    if raw.None? {
      return None;
    }
    var px := DecodeScan(raw.value, h, w * bpp.value, bpp.value);
    if px.None? {
      return None;
    }
    return Some(Picture(w, h, bpp.value, px.value));
  }
}
