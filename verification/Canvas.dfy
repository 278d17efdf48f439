/**
 Pictures as layers.  A layer says which pixels a drawing operation wants to set and to
 what; showing a layer through a clip rectangle on a buffer sets the wanted pixels that
 are on the screen and inside the clip, and leaves the rest.  Everything the 2D library
 promises about clipping is a statement about layers.
 */
module Canvas {
  type Layer = imap<(int, int), nat>

  /** A frame buffer of `height` rows of `stride` pixels, the first `width` of which are visible. */
  datatype Screen = Screen(width: nat, height: nat, stride: nat)

  /** Columns x0..x1-1 and rows y0..y1-1. */
  datatype Rect = Rect(x0: int, y0: int, x1: int, y1: int)

  predicate ValidScreen(sc: Screen) {
    sc.width <= sc.stride && sc.width < 0x1000_0000 && sc.height < 0x1000_0000
  }

  function Full(sc: Screen): Rect {
    Rect(0, 0, sc.width, sc.height)
  }

  predicate Inside(r: Rect, x: int, y: int) {
    r.x0 <= x < r.x1 && r.y0 <= y < r.y1
  }

  /** A pixel that a drawing operation is allowed to change. */
  predicate Open(sc: Screen, clip: Rect, x: int, y: int) {
    Inside(Full(sc), x, y) && Inside(clip, x, y)
  }

  predicate InBuffer(sc: Screen, x: int, y: int) {
    0 <= x < sc.stride && 0 <= y < sc.height
  }

  /** The buffer offset of row y, y * stride; written as a sum to keep the solver linear. */
  function RowStart(sc: Screen, y: nat): nat {
    if y == 0 then 0 else RowStart(sc, y - 1) + sc.stride
  }

  lemma {:induction false} RowStartIsProduct(sc: Screen, y: nat)
    ensures RowStart(sc, y) == y * sc.stride
  {
    if y > 0 {
      RowStartIsProduct(sc, y - 1);
      assert y * sc.stride == (y - 1) * sc.stride + sc.stride;
    }
  }

  lemma {:induction false} RowsApart(sc: Screen, y: nat, y': nat)
    requires y < y'
    ensures RowStart(sc, y) + sc.stride <= RowStart(sc, y')
    decreases y'
  {
    if y + 1 < y' {
      RowsApart(sc, y, y' - 1);
    }
  }

  /** Pixel (x, y) lives at y * stride + x. */
  function Index(sc: Screen, x: int, y: int): (i: nat)
    requires InBuffer(sc, x, y)
    ensures i < RowStart(sc, sc.height)
  {
    RowsApart(sc, y, sc.height);
    RowStart(sc, y) + x
  }

  lemma IndexIsOffset(sc: Screen, x: int, y: int)
    requires InBuffer(sc, x, y)
    ensures Index(sc, x, y) == y * sc.stride + x
  {
    RowStartIsProduct(sc, y);
  }

  lemma IndexUnique(sc: Screen, x: int, y: int, x': int, y': int)
    requires InBuffer(sc, x, y) && InBuffer(sc, x', y') && Index(sc, x, y) == Index(sc, x', y')
    ensures x == x' && y == y'
  {
    if y < y' {
      RowsApart(sc, y, y');
    } else if y' < y {
      RowsApart(sc, y', y);
    }
  }

  predicate Fits(sc: Screen, buf: seq<nat>) {
    |buf| == RowStart(sc, sc.height)
  }

  function Px(sc: Screen, buf: seq<nat>, x: int, y: int): nat
    requires Fits(sc, buf) && InBuffer(sc, x, y)
  {
    buf[Index(sc, x, y)]
  }

  /** What a pixel becomes when `layer` is shown through `clip`. */
  function Through(sc: Screen, clip: Rect, layer: Layer, x: int, y: int, was: nat): nat {
    if Open(sc, clip, x, y) && (x, y) in layer then layer[(x, y)] else was
  }

  /** `after` is `before` with `layer` shown through `clip`. */
  ghost predicate Shows(sc: Screen, clip: Rect, before: seq<nat>, after: seq<nat>, layer: Layer) {
    && Fits(sc, before) && Fits(sc, after)
    && forall x, y :: InBuffer(sc, x, y) ==>
         Px(sc, after, x, y) == Through(sc, clip, layer, x, y, Px(sc, before, x, y))
  }

  /** Clips that agree on the screen show the same. */
  lemma ShowsOtherClip(sc: Screen, clip: Rect, clip': Rect, before: seq<nat>, after: seq<nat>, layer: Layer)
    requires Shows(sc, clip, before, after, layer)
    requires forall x, y :: Inside(Full(sc), x, y) ==> (Inside(clip, x, y) <==> Inside(clip', x, y))
    ensures Shows(sc, clip', before, after, layer)
  {
    forall x, y | InBuffer(sc, x, y)
      ensures Px(sc, after, x, y) == Through(sc, clip', layer, x, y, Px(sc, before, x, y))
    {
      assert Open(sc, clip, x, y) <==> Open(sc, clip', x, y);
    }
  }

  lemma ShowsNothing(sc: Screen, clip: Rect, buf: seq<nat>, layer: Layer)
    requires Fits(sc, buf)
    requires forall x, y :: Open(sc, clip, x, y) ==> (x, y) !in layer
    ensures Shows(sc, clip, buf, buf, layer)
  {
  }

  /** Drawing one layer and then another is drawing the second laid over the first. */
  lemma ShowsThen(sc: Screen, clip: Rect, a: seq<nat>, b: seq<nat>, c: seq<nat>, first: Layer, second: Layer)
    requires Shows(sc, clip, a, b, first) && Shows(sc, clip, b, c, second)
    ensures Shows(sc, clip, a, c, first + second)
  {
    forall x, y | InBuffer(sc, x, y)
      ensures Px(sc, c, x, y) == Through(sc, clip, first + second, x, y, Px(sc, a, x, y))
    {
      assert Px(sc, c, x, y) == Through(sc, clip, second, x, y, Px(sc, b, x, y));
      assert Px(sc, b, x, y) == Through(sc, clip, first, x, y, Px(sc, a, x, y));
    }
  }

  // ---------------------------------------------------------------- layers of one colour

  type Points = iset<(int, int)>

  /** One colour on a set of pixels. */
  ghost function Ink(s: Points, color: nat): Layer {
    imap p | p in s :: color
  }

  /** `after` is `before` with the pixels of `s` that `clip` lets through set to `color`. */
  ghost predicate Inks(sc: Screen, clip: Rect, before: seq<nat>, after: seq<nat>, s: Points, color: nat) {
    && Fits(sc, before) && Fits(sc, after)
    && forall x, y :: InBuffer(sc, x, y) ==>
         Px(sc, after, x, y) == if Open(sc, clip, x, y) && (x, y) in s then color else Px(sc, before, x, y)
  }

  lemma InkShows(sc: Screen, clip: Rect, before: seq<nat>, after: seq<nat>, s: Points, color: nat)
    requires Inks(sc, clip, before, after, s, color)
    ensures Shows(sc, clip, before, after, Ink(s, color))
  {
  }

  lemma InkUnion(sc: Screen, clip: Rect, a: seq<nat>, b: seq<nat>, c: seq<nat>, s: Points, t: Points, color: nat)
    requires Inks(sc, clip, a, b, s, color) && Inks(sc, clip, b, c, t, color)
    ensures Inks(sc, clip, a, c, s + t, color)
  {
  }

  /** Sets that agree on the pixels a clip lets through. */
  lemma InkSame(sc: Screen, clip: Rect, before: seq<nat>, after: seq<nat>, s: Points, t: Points, color: nat)
    requires Inks(sc, clip, before, after, s, color)
    requires forall x, y :: Open(sc, clip, x, y) ==> ((x, y) in s <==> (x, y) in t)
    ensures Inks(sc, clip, before, after, t, color)
  {
  }

  lemma InkNone(sc: Screen, clip: Rect, buf: seq<nat>, s: Points, color: nat)
    requires Fits(sc, buf)
    requires forall x, y :: Open(sc, clip, x, y) ==> (x, y) !in s
    ensures Inks(sc, clip, buf, buf, s, color)
  {
  }

  /** Storing one open pixel. */
  lemma InkStore(sc: Screen, clip: Rect, buf: seq<nat>, x: int, y: int, color: nat)
    requires ValidScreen(sc) && Fits(sc, buf) && Open(sc, clip, x, y)
    ensures InBuffer(sc, x, y)
    ensures Inks(sc, clip, buf, buf[Index(sc, x, y) := color], iset{(x, y)}, color)
  {
    var after := buf[Index(sc, x, y) := color];
    forall x', y' | InBuffer(sc, x', y')
      ensures Px(sc, after, x', y') == if (x', y') == (x, y) then color else Px(sc, buf, x', y')
    {
      if Index(sc, x, y) == Index(sc, x', y') {
        IndexUnique(sc, x, y, x', y');
      }
    }
  }

  // ---------------------------------------------------------------- main results

  /**
   Drawing through a clip: inside the clip the buffer is what the unclipped drawing
   leaves, outside it is untouched.
   */
  lemma ClippedDrawing(sc: Screen, clip: Rect, before: seq<nat>, clipped: seq<nat>, full: seq<nat>, layer: Layer, x: int, y: int)
    requires Shows(sc, clip, before, clipped, layer) && Shows(sc, Full(sc), before, full, layer)
    requires InBuffer(sc, x, y)
    ensures Inside(clip, x, y) ==> Px(sc, clipped, x, y) == Px(sc, full, x, y)
    ensures !Inside(clip, x, y) ==> Px(sc, clipped, x, y) == Px(sc, before, x, y)
  {
  }

  /** `front'` is `front` with the visible part of `r` copied from `back`. */
  ghost predicate CopiedRect(sc: Screen, r: Rect, back: seq<nat>, front: seq<nat>, front': seq<nat>) {
    && Fits(sc, back) && Fits(sc, front) && Fits(sc, front')
    && forall x, y :: InBuffer(sc, x, y) ==>
         Px(sc, front', x, y) == if Open(sc, r, x, y) then Px(sc, back, x, y) else Px(sc, front, x, y)
  }

  /**
   The dirty-rectangle path shows the same picture as the full redraw it stands in for:
   redrawing through `r` and copying `r` gives, on every visible pixel, the screen that a
   full redraw and a full copy give, if the screen already showed that outside `r`.
   */
  lemma DirtyRedrawIsFullRedraw(sc: Screen, r: Rect, back: seq<nat>, layer: Layer, front: seq<nat>,
                                backDirty: seq<nat>, frontDirty: seq<nat>, backFull: seq<nat>, x: int, y: int)
    requires ValidScreen(sc) && Shows(sc, r, back, backDirty, layer) && CopiedRect(sc, r, backDirty, front, frontDirty)
    requires Shows(sc, Full(sc), back, backFull, layer)
    requires forall u, v :: Inside(Full(sc), u, v) && !Inside(r, u, v) ==> Px(sc, front, u, v) == Px(sc, backFull, u, v)
    requires Inside(Full(sc), x, y)
    ensures Px(sc, frontDirty, x, y) == Px(sc, backFull, x, y)
  {
    ClippedDrawing(sc, r, back, backDirty, backFull, layer, x, y);
  }

  // ---------------------------------------------------------------- copying

  /** `front'` is `front` with columns x0..x1-1 of row y copied from `back`. */
  ghost predicate CopiedRow(sc: Screen, x0: int, x1: int, y: int, back: seq<nat>, front: seq<nat>, front': seq<nat>) {
    CopiedRows(sc, x0, x1, y, y + 1, back, front, front')
  }

  ghost predicate CopiedRows(sc: Screen, x0: int, x1: int, y0: int, y1: int, back: seq<nat>, front: seq<nat>, front': seq<nat>) {
    && Fits(sc, back) && Fits(sc, front) && Fits(sc, front')
    && forall x, y :: InBuffer(sc, x, y) ==>
         Px(sc, front', x, y) == if x0 <= x < x1 && y0 <= y < y1 then Px(sc, back, x, y) else Px(sc, front, x, y)
  }

  lemma RowGrows(sc: Screen, x0: int, x: int, y: int, back: seq<nat>, was: seq<nat>, before: seq<nat>, after: seq<nat>)
    requires x0 <= x && InBuffer(sc, x, y) && CopiedRow(sc, x0, x, y, back, was, before)
    requires after == before[Index(sc, x, y) := Px(sc, back, x, y)]
    ensures CopiedRow(sc, x0, x + 1, y, back, was, after)
  {
    forall u, v | InBuffer(sc, u, v)
      ensures Px(sc, after, u, v) == if x0 <= u < x + 1 && v == y then Px(sc, back, u, v) else Px(sc, was, u, v)
    {
      if Index(sc, u, v) == Index(sc, x, y) {
        IndexUnique(sc, u, v, x, y);
      }
    }
  }

  lemma RowsGrow(sc: Screen, x0: int, x1: int, y0: int, y: int, back: seq<nat>, was: seq<nat>, before: seq<nat>, after: seq<nat>)
    requires y0 <= y && CopiedRows(sc, x0, x1, y0, y, back, was, before) && CopiedRow(sc, x0, x1, y, back, before, after)
    ensures CopiedRows(sc, x0, x1, y0, y + 1, back, was, after)
  {
  }

  lemma AllRows(sc: Screen, back: seq<nat>, was: seq<nat>, after: seq<nat>)
    requires CopiedRows(sc, 0, sc.stride, 0, sc.height, back, was, after)
    ensures after == back
  {
    forall i | 0 <= i < |back|
      ensures after[i] == back[i]
    {
      var x, y := Unindex(sc, i);
      assert Px(sc, after, x, y) == Px(sc, back, x, y);
    }
  }

  lemma {:induction false} RowOf(sc: Screen, i: nat, h: nat) returns (y: nat)
    requires i < RowStart(sc, h)
    ensures y < h && RowStart(sc, y) <= i < RowStart(sc, y) + sc.stride
  {
    if RowStart(sc, h - 1) <= i {
      y := h - 1;
    } else {
      y := RowOf(sc, i, h - 1);
    }
  }

  lemma Unindex(sc: Screen, i: nat) returns (x: int, y: int)
    requires i < RowStart(sc, sc.height)
    ensures InBuffer(sc, x, y) && Index(sc, x, y) == i
  {
    y := RowOf(sc, i, sc.height);
    x := i - RowStart(sc, y);
  }
}
