/**
 PNG scanline filtering (section 9 of ISO/IEC 15948): the standard's filters, and the
 in-place unfiltering loop of tools/analyze_screen.py.
 */
module PngFilter {
  import opened Bytes

  function Abs(x: int): nat {
    if x < 0 then -x else x
  }

  function Paeth(a: Byte, b: Byte, c: Byte): Byte {
    var p: int := (a as int) + (b as int) - (c as int);
    var pa, pb, pc := Abs(p - a), Abs(p - b), Abs(p - c);
    if pa <= pb && pa <= pc then a else if pb <= pc then b else c
  }

  /**
   The predictor is the one of left, upper and upper-left that is nearest to left + upper -
   upper-left; among equally near ones the left comes first and the upper second.
   */
  lemma PaethNearest(a: Byte, b: Byte, c: Byte)
    ensures var p: int := a as int + b as int - c as int; var r := Paeth(a, b, c);
            && (r == a || r == b || r == c)
            && Abs(p - r) <= Abs(p - a) && Abs(p - r) <= Abs(p - b) && Abs(p - r) <= Abs(p - c)
            && (Abs(p - a) == Abs(p - r) ==> r == a)
            && (Abs(p - a) != Abs(p - r) && Abs(p - b) == Abs(p - r) ==> r == b)
  {
  }

  /** The prediction of filter type `ft` from the left, upper and upper-left bytes. */
  function Predict(ft: nat, a: Byte, b: Byte, c: Byte): Byte {
    if ft == 1 then a else if ft == 2 then b
    else if ft == 3 then ((a as int) + (b as int)) / 2
    else if ft == 4 then Paeth(a, b, c)
    else 0
  }

  /** The byte `bpp` places before `x`, zero in the first pixel. */
  function Left(row: seq<Byte>, x: nat, bpp: nat): Byte
    requires bpp > 0 && (x >= bpp ==> x - bpp < |row|)
  {
    if x >= bpp then row[x - bpp] else 0
  }

  /** The prediction for byte x, given the reconstructed bytes before it. */
  function PredictAt(ft: nat, before: seq<Byte>, prev: seq<Byte>, x: nat, bpp: nat): Byte
    requires bpp > 0 && x <= |before| && x < |prev|
  {
    Predict(ft, Left(before, x, bpp), prev[x], Left(prev, x, bpp))
  }

  /** What the encoder stores: each byte less its prediction from the original bytes. */
  function Filter(ft: nat, row: seq<Byte>, prev: seq<Byte>, bpp: nat): (f: seq<Byte>)
    requires bpp > 0 && |row| == |prev|
    ensures |f| == |row|
  {
    seq(|row|, x requires 0 <= x < |row| => (row[x] as int - PredictAt(ft, row, prev, x, bpp) as int) % 256)
  }

  /** The first n bytes reconstructed from left to right. */
  function Unfilter(ft: nat, line: seq<Byte>, prev: seq<Byte>, bpp: nat, n: nat): (r: seq<Byte>)
    requires bpp > 0 && n <= |line| <= |prev|
    ensures |r| == n
    decreases n
  {
    if n == 0 then [] else
    var before := Unfilter(ft, line, prev, bpp, n - 1);
    before + [(line[n - 1] as int + PredictAt(ft, before, prev, n - 1, bpp) as int) % 256]
  }

  lemma PrefixPredicts(ft: nat, a: seq<Byte>, b: seq<Byte>, prev: seq<Byte>, x: nat, bpp: nat)
    requires bpp > 0 && x <= |a| && x <= |b| && x < |prev| && a[..x] == b[..x]
    ensures PredictAt(ft, a, prev, x, bpp) == PredictAt(ft, b, prev, x, bpp)
  {
    if x >= bpp {
      assert a[x - bpp] == a[..x][x - bpp] == b[..x][x - bpp] == b[x - bpp];
    }
  }

  lemma AddBack(raw: Byte, p: Byte)
    ensures ((raw as int - p as int) % 256 + p as int) % 256 == raw
    ensures ((raw as int + p as int) % 256 - p as int) % 256 == raw
  {
  }

  /** Unfiltering recovers the original row, whatever filter was chosen. */
  lemma {:induction false} UnfilterFilter(ft: nat, row: seq<Byte>, prev: seq<Byte>, bpp: nat, n: nat)
    requires bpp > 0 && |row| == |prev| && n <= |row|
    ensures Unfilter(ft, Filter(ft, row, prev, bpp), prev, bpp, n) == row[..n]
    decreases n
  {
    if n > 0 {
      UnfilterFilter(ft, row, prev, bpp, n - 1);
      var before := row[..n - 1];
      PrefixPredicts(ft, before, row, prev, n - 1, bpp);
      AddBack(row[n - 1], PredictAt(ft, row, prev, n - 1, bpp));
      assert row[..n] == before + [row[n - 1]];
    }
  }

  /** And every stored line is the filtering of what it decodes to: the filters are bijections. */
  lemma FilterUnfilter(ft: nat, line: seq<Byte>, prev: seq<Byte>, bpp: nat)
    requires bpp > 0 && |line| == |prev|
    ensures Filter(ft, Unfilter(ft, line, prev, bpp, |line|), prev, bpp) == line
  {
    var row := Unfilter(ft, line, prev, bpp, |line|);
    forall x | 0 <= x < |line|
      ensures Filter(ft, row, prev, bpp)[x] == line[x]
    {
      UnfilterPrefix(ft, line, prev, bpp, x, |line|);
      UnfilterPrefix(ft, line, prev, bpp, x + 1, |line|);
      var before := Unfilter(ft, line, prev, bpp, x);
      PrefixPredicts(ft, before, row, prev, x, bpp);
      assert row[x] == row[..x + 1][x];
      AddBack(line[x], PredictAt(ft, row, prev, x, bpp));
    }
  }

  lemma {:induction false} UnfilterPrefix(ft: nat, line: seq<Byte>, prev: seq<Byte>, bpp: nat, x: nat, n: nat)
    requires bpp > 0 && x <= n <= |line| <= |prev|
    ensures Unfilter(ft, line, prev, bpp, n)[..x] == Unfilter(ft, line, prev, bpp, x)
    decreases n
  {
    if x < n {
      UnfilterPrefix(ft, line, prev, bpp, x, n - 1);
      assert Unfilter(ft, line, prev, bpp, n)[..x] == Unfilter(ft, line, prev, bpp, n - 1)[..x];
    }
  }

  /** Byte `x` of a row, and its left, upper and upper-left neighbours, zero before the first pixel. */
  datatype Around = Around(byte: int, left: int, up: int, corner: int)

  function At(row: seq<Byte>, prev: seq<Byte>, bpp: nat, x: nat): Around
    requires x < |row| <= |prev|
  {
    if x < bpp then Around(row[x], 0, prev[x], 0) else Around(row[x], row[x - bpp], prev[x], prev[x - bpp])
  }

  /**
   Reconstruction as section 9.2 of the standard tabulates it: every byte is the stored one plus
   nothing, the reconstructed left one, the upper one, the mean of both rounded down, or the
   Paeth predictor, modulo 256.
   */
  lemma Reconstructed(ft: nat, line: seq<Byte>, prev: seq<Byte>, bpp: nat, x: nat)
    requires bpp > 0 && x < |line| == |prev|
    ensures var n := At(Unfilter(ft, line, prev, bpp, |line|), prev, bpp, x);
            && (ft == 0 ==> n.byte == line[x])
            && (ft == 1 ==> n.byte == (line[x] as int + n.left) % 256)
            && (ft == 2 ==> n.byte == (line[x] as int + n.up) % 256)
            && (ft == 3 ==> exists m :: (2 * m == n.left + n.up || 2 * m + 1 == n.left + n.up) && n.byte == (line[x] as int + m) % 256)
            && (ft == 4 ==> n.byte == (line[x] as int + Paeth(n.left, n.up, n.corner) as int) % 256)
  {
    var row := Unfilter(ft, line, prev, bpp, |line|);
    UnfilterPrefix(ft, line, prev, bpp, x, |line|);
    UnfilterPrefix(ft, line, prev, bpp, x + 1, |line|);
    PrefixPredicts(ft, Unfilter(ft, line, prev, bpp, x), row, prev, x, bpp);
    assert row[x] == row[..x + 1][x];
    var n := At(row, prev, bpp, x);
    var m := (n.left + n.up) / 2;
    assert 2 * m == n.left + n.up || 2 * m + 1 == n.left + n.up;
  }

  /** The body of the scanline loop: what is added to the byte, by filter type. */
  method Prediction(ft: nat, a: Byte, b: Byte, c: Byte) returns (pr: Byte)
    ensures pr == Predict(ft, a, b, c)
  {
    pr := 0;
    if ft == 1 {
      pr := a;
    } else if ft == 2 {
      pr := b;
    } else if ft == 3 {
      pr := (a as int + b as int) / 2;
    } else if ft == 4 {
      var p: int := a as int + b as int - c as int;
      var pa, pb, pc := Abs(p - a), Abs(p - b), Abs(p - c);
      if pa <= pb && pa <= pc {
        pr := a;
      } else if pb <= pc {
        pr := b;
      } else {
        pr := c;
      }
    }
  }

  /** The loop over one scanline, rewriting it in place. */
  method UnfilterInPlace(line: array<Byte>, ft: nat, prev: seq<Byte>, bpp: nat)
    requires bpp > 0 && line.Length == |prev|
    modifies line
    ensures line[..] == Unfilter(ft, old(line[..]), prev, bpp, line.Length)
  {
    ghost var was := line[..];
    var x := 0;
    while x < line.Length
      invariant 0 <= x <= line.Length
      invariant line[..x] == Unfilter(ft, was, prev, bpp, x)
      invariant line[x..] == was[x..]
    {
      ghost var before := line[..x];
      var a: Byte := if x >= bpp then line[x - bpp] else 0;
      var c: Byte := if x >= bpp then prev[x - bpp] else 0;
      assert line[x] == was[x..][0] == was[x];
      var pr := Prediction(ft, a, prev[x], c);
      line[x] := (line[x] as int + pr as int) % 256;
      assert line[..x + 1] == before + [line[x]];
      x := x + 1;
    }
  }
}
