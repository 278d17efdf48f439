/**
 What the integer line and circle loops compute, in closed form: the n-th pixel of a
 line is the rounded point of the true line, and the circle's octant is an integer
 square root per row.
 */
module Rasterizers {
  import opened Arithmetic
  import opened Bytes

  function Abs(x: int): nat {
    if x < 0 then -x else x
  }

  // ---------------------------------------------------------------- lines

  datatype Line = Line(x0: int, y0: int, x1: int, y1: int)

  function Dx(l: Line): nat { Abs(l.x1 - l.x0) }
  function Dy(l: Line): nat { Abs(l.y1 - l.y0) }
  function Sx(l: Line): int { if l.x0 < l.x1 then 1 else -1 }
  function Sy(l: Line): int { if l.y0 < l.y1 then 1 else -1 }
  function Steps(l: Line): nat { if Dx(l) > Dy(l) then Dx(l) else Dy(l) }

  /** n * a / b rounded to the nearest integer, halves down. */
  function Round(n: nat, a: nat, b: nat): nat
    requires b > 0
  {
    RoundNonNegative(n, a, b);
    (2 * (n * a) + b - 1) / (2 * b)
  }

  lemma RoundNonNegative(n: nat, a: nat, b: nat)
    requires b > 0
    ensures (2 * (n * a) + b - 1) / (2 * b) >= 0
  {
    MulNonNegative(n, a);
  }

  /** Unit steps taken in x and in y by the n-th pixel. */
  function I(l: Line, n: nat): nat {
    if Dx(l) > Dy(l) then n else if Dy(l) == 0 then 0 else Round(n, Dx(l), Dy(l))
  }

  function J(l: Line, n: nat): nat {
    if Dx(l) > Dy(l) then Round(n, Dy(l), Dx(l)) else n
  }

  /** The n-th pixel of a line. */
  function LineAt(l: Line, n: nat): (int, int) {
    (l.x0 + Sx(l) * I(l, n), l.y0 + Sy(l) * J(l, n))
  }

  /** Rounding is characterised by the remaining error. */
  lemma RoundSpec(n: nat, a: nat, b: nat, k: nat)
    requires b > 0
    ensures k == Round(n, a, b) <==> 0 - b <= 2 * (k * b - n * a) < b
  {
    var x, q := 2 * (n * a) + b - 1, Round(n, a, b);
    MulNonNegative(n, a);
    assert x == 2 * b * q + x % (2 * b);
    assert 2 * b * q == 2 * (q * b);
    if 0 - b <= 2 * (k * b - n * a) < b {
      assert 2 * b * k == 2 * (k * b);
      DivModUnique(x, 2 * b, k, x - 2 * b * k);
    }
  }

  /** How far the n-th pixel is from the true line, times 2 max(dx, dy). */
  function LineError(l: Line, n: nat): int {
    2 * (J(l, n) * Dx(l) - I(l, n) * Dy(l))
  }

  /** Every pixel is within half a pixel of the true line. */
  lemma HalfPixel(l: Line, n: nat)
    ensures Abs(LineError(l, n)) <= Steps(l)
  {
    if Dx(l) > Dy(l) {
      RoundSpec(n, Dy(l), Dx(l), J(l, n));
    } else if Dy(l) > 0 {
      RoundSpec(n, Dx(l), Dy(l), I(l, n));
    }
  }

  /** A line starts at one endpoint and ends at the other. */
  lemma LineEnds(l: Line)
    ensures LineAt(l, 0) == (l.x0, l.y0)
    ensures LineAt(l, Steps(l)) == (l.x1, l.y1)
  {
    var dx, dy := Dx(l), Dy(l);
    if dx > dy {
      RoundSpec(0, dy, dx, 0);
      assert dy * dx == dx * dy;
      RoundSpec(dx, dy, dx, dy);
    } else if dy > 0 {
      RoundSpec(0, dx, dy, 0);
      assert dx * dy == dy * dx;
      RoundSpec(dy, dx, dy, dx);
    }
  }

  /** The decision variable of the loop at the n-th pixel. */
  function Err(l: Line, n: nat): int {
    Dx(l) - Dy(l) + J(l, n) * Dx(l) - I(l, n) * Dy(l)
  }

  lemma RoundStep(n: nat, a: nat, b: nat)
    requires 0 < b && a <= b
    ensures var d := 2 * (Round(n, a, b) * b - n * a);
            Round(n + 1, a, b) == Round(n, a, b) + if d < 2 * a - b then 1 else 0
  {
    var k := Round(n, a, b);
    RoundSpec(n, a, b, k);
    var d := 2 * (k * b - n * a);
    var k' := if d < 2 * a - b then k + 1 else k;
    assert (n + 1) * a == n * a + a;
    assert (k + 1) * b == k * b + b;
    RoundSpec(n + 1, a, b, k');
  }

  /** The two tests of the loop take exactly the unit steps to the next pixel. */
  lemma LineStep(l: Line, n: nat)
    requires n < Steps(l)
    ensures I(l, n + 1) == I(l, n) + if 2 * Err(l, n) > 0 - Dy(l) then 1 else 0
    ensures J(l, n + 1) == J(l, n) + if 2 * Err(l, n) < Dx(l) then 1 else 0
  {
    var dx, dy := Dx(l), Dy(l);
    if dx > dy {
      RoundStep(n, dy, dx);
      RoundSpec(n, dy, dx, J(l, n));
    } else {
      RoundStep(n, dx, dy);
      RoundSpec(n, dx, dy, I(l, n));
      if dx == dy {
        Diagonal(n, dx);
      }
    }
  }

  lemma Diagonal(n: nat, d: nat)
    requires d > 0
    ensures Round(n, d, d) == n
  {
    RoundSpec(n, d, d, n);
  }

  /** The loop's variables when it is about to plot pixel n. */
  predicate AtPixel(l: Line, n: nat, x: int, y: int, err: int) {
    n <= Steps(l) && (x, y) == LineAt(l, n) && err == Err(l, n)
  }

  /** The updates of position and decision variable, as the loop body makes them. */
  function LoopTurn(dx: int, dy: int, sx: int, sy: int, x: int, y: int, err: int): (int, int, int) {
    var right, down := 2 * err > 0 - dy, 2 * err < dx;
    (x + (if right then sx else 0), y + (if down then sy else 0),
     err - (if right then dy else 0) + (if down then dx else 0))
  }

  function LineNext(l: Line, x: int, y: int, err: int): (int, int, int) {
    LoopTurn(Dx(l), Dy(l), Sx(l), Sy(l), x, y, err)
  }

  lemma StepAlgebra(d: int, i: int, a: int)
    requires 0 <= a <= 1
    ensures d * (i + a) == d * i + (if a == 1 then d else 0)
    ensures (i + a) * d == i * d + (if a == 1 then d else 0)
  {
  }

  lemma LineAdvance(l: Line, n: nat, x: int, y: int, err: int)
    requires AtPixel(l, n, x, y, err) && n < Steps(l)
    ensures var (x', y', err') := LineNext(l, x, y, err); AtPixel(l, n + 1, x', y', err')
  {
    LineStep(l, n);
    var i, j := I(l, n), J(l, n);
    var a, b := I(l, n + 1) - i, J(l, n + 1) - j;
    StepAlgebra(Sx(l), i, a);
    StepAlgebra(Sy(l), j, b);
    StepAlgebra(Dy(l), i, a);
    StepAlgebra(Dx(l), j, b);
  }

  /** The loop starts on the first pixel, and the far endpoint is the last one and no other. */
  lemma LineStartStop(l: Line, n: nat, x: int, y: int, err: int)
    ensures AtPixel(l, 0, l.x0, l.y0, Dx(l) - Dy(l))
    ensures AtPixel(l, n, x, y, err) ==> (x == l.x1 && y == l.y1 <==> n == Steps(l))
  {
    LineEnds(l);
  }

  // ---------------------------------------------------------------- the line loop in 32-bit arithmetic

  // The loop's parameters are unsigned: a coordinate left of or above the screen arrives as a
  // number near 2^32, and the set-up compares the numbers, not the coordinates.

  const REACH: int := 0x2000_0000

  /** Coordinates small enough that no difference and no error term of a line leaves 32 bits. */
  predicate InReach(l: Line) {
    Abs(l.x0) < REACH && Abs(l.y0) < REACH && Abs(l.x1) < REACH && Abs(l.y1) < REACH
  }

  function Unsigned(c: int): nat {
    c % TWO32
  }

  function Signed(c: int): int {
    if Unsigned(c) < 0x8000_0000 then Unsigned(c) else Unsigned(c) - TWO32
  }

  /** The set-up's distance from `a` to `b`, cast to int. */
  function Span(a: int, b: int): int {
    if Unsigned(b) > Unsigned(a) then Signed(b - a) else Signed(a - b)
  }

  /** The set-up's direction from `a` to `b`. */
  function Way(a: int, b: int): int {
    if Unsigned(a) < Unsigned(b) then 1 else -1
  }

  /** Neither coordinate of a line changes its sign. */
  predicate SameSide(l: Line) {
    (l.x0 < 0 <==> l.x1 < 0) && (l.y0 < 0 <==> l.y1 < 0)
  }

  lemma SpanWay(a: int, b: int)
    requires Abs(a) < REACH && Abs(b) < REACH
    ensures (a < 0 <==> b < 0) ==> Span(a, b) == Abs(b - a) && Way(a, b) == if a < b then 1 else -1
    ensures !(a < 0 <==> b < 0) ==> Span(a, b) < 0
    ensures Unsigned(a) == Unsigned(b) <==> a == b
  {
    UnsignedOf(a);
    UnsignedOf(b);
    UnsignedOf(a - b);
    UnsignedOf(b - a);
  }

  lemma UnsignedOf(c: int)
    requires Abs(c) < 0x8000_0000
    ensures Unsigned(c) == if c < 0 then c + TWO32 else c
  {
    DivModUnique(c, TWO32, if c < 0 then -1 else 0, if c < 0 then c + TWO32 else c);
  }

  /** The loop's variables at the top of turn n. */
  function LoopAt(l: Line, n: nat): (int, int, int) {
    var dx, dy := Span(l.x0, l.x1), Span(l.y0, l.y1);
    if n == 0 then (l.x0, l.y0, dx - dy)
    else
      var (x, y, err) := LoopAt(l, n - 1);
      LoopTurn(dx, dy, Way(l.x0, l.x1), Way(l.y0, l.y1), x, y, err)
  }

  /** The loop's exit test. */
  predicate AtEnd(l: Line, x: int, y: int) {
    Unsigned(x) == Unsigned(l.x1) && Unsigned(y) == Unsigned(l.y1)
  }

  predicate Ends(l: Line, n: nat) {
    AtEnd(l, LoopAt(l, n).0, LoopAt(l, n).1)
  }

  lemma RoundWithin(n: nat, a: nat, b: nat)
    requires 0 < b && n <= b
    ensures Round(n, a, b) <= a
  {
    var k := Round(n, a, b);
    RoundSpec(n, a, b, k);
    assert (a + 1) * b == a * b + b && b * a == a * b;
    MulLe(n, b, a);
    if k > a {
      MulLe(a + 1, k, b);
    }
  }

  /** Pixels of a line stay between its endpoints. */
  lemma StepsWithin(l: Line, n: nat)
    requires n <= Steps(l)
    ensures I(l, n) <= Dx(l) && J(l, n) <= Dy(l)
  {
    if Dx(l) > Dy(l) {
      RoundWithin(n, Dy(l), Dx(l));
    } else if Dy(l) > 0 {
      RoundWithin(n, Dx(l), Dy(l));
    }
  }

  /** On a line that keeps its side the exit test means the far endpoint. */
  lemma ExitTest(l: Line, n: nat, x: int, y: int, err: int)
    requires InReach(l) && SameSide(l) && AtPixel(l, n, x, y, err)
    ensures AtEnd(l, x, y) <==> x == l.x1 && y == l.y1
  {
    StepsWithin(l, n);
    SameResidue(x, l.x1);
    SameResidue(y, l.y1);
  }

  /** On such a line 2 * err fits an int. */
  lemma ErrorFits(l: Line, n: nat, x: int, y: int, err: int)
    requires InReach(l) && SameSide(l) && AtPixel(l, n, x, y, err)
    ensures Abs(2 * err) < 0x8000_0000
  {
    HalfPixel(l, n);
  }

  lemma SameResidue(a: int, b: int)
    requires Abs(a - b) < TWO32
    ensures Unsigned(a) == Unsigned(b) <==> a == b
  {
  }

  /** A line that keeps its side walks its pixels. */
  lemma {:induction false} LoopFollows(l: Line, n: nat)
    requires InReach(l) && SameSide(l) && n <= Steps(l)
    ensures var (x, y, err) := LoopAt(l, n); AtPixel(l, n, x, y, err)
  {
    SetUp(l);
    if n == 0 {
      LineStartStop(l, 0, l.x0, l.y0, Dx(l) - Dy(l));
    } else {
      LoopFollows(l, n - 1);
      var (x, y, err) := LoopAt(l, n - 1);
      LineAdvance(l, n - 1, x, y, err);
    }
  }

  lemma SetUp(l: Line)
    requires InReach(l) && SameSide(l)
    ensures Span(l.x0, l.x1) == Dx(l) && Span(l.y0, l.y1) == Dy(l)
    ensures Way(l.x0, l.x1) == Sx(l) && Way(l.y0, l.y1) == Sy(l)
  {
    SpanWay(l.x0, l.x1);
    SpanWay(l.y0, l.y1);
  }

  /** One coordinate never moves again. */
  predicate Stuck(l: Line, x: int, y: int, err: int) {
    var dx, dy := Span(l.x0, l.x1), Span(l.y0, l.y1);
    (dx < 0 && x == l.x0 && 2 * err <= 0 - dy) || (dy < 0 && y == l.y0 && 2 * err >= dx)
  }

  lemma {:induction false} StaysStuck(l: Line, n: nat)
    requires InReach(l) && !SameSide(l)
    ensures var (x, y, err) := LoopAt(l, n); Stuck(l, x, y, err)
  {
    SpanWay(l.x0, l.x1);
    SpanWay(l.y0, l.y1);
    if n > 0 {
      StaysStuck(l, n - 1);
    }
  }

  /**
   The loop meets its exit test if and only if the line keeps its side on both axes; it
   then does so after max(dx, dy) turns and not before.
   */
  lemma LineTerminates(l: Line)
    requires InReach(l)
    ensures (exists n: nat :: Ends(l, n)) <==> SameSide(l)
    ensures SameSide(l) ==> forall n: nat :: n <= Steps(l) ==> (Ends(l, n) <==> n == Steps(l))
  {
    if SameSide(l) {
      forall n: nat | n <= Steps(l)
        ensures Ends(l, n) <==> n == Steps(l)
      {
        EndsAtSteps(l, n);
      }
      assert Ends(l, Steps(l));
    } else {
      forall n: nat
        ensures !Ends(l, n)
      {
        NeverEnds(l, n);
      }
    }
  }

  lemma EndsAtSteps(l: Line, n: nat)
    requires InReach(l) && SameSide(l) && n <= Steps(l)
    ensures Ends(l, n) <==> n == Steps(l)
  {
    LoopFollows(l, n);
    var (x, y, err) := LoopAt(l, n);
    ExitTest(l, n, x, y, err);
    LineStartStop(l, n, x, y, err);
  }

  lemma NeverEnds(l: Line, n: nat)
    requires InReach(l) && !SameSide(l)
    ensures !Ends(l, n)
  {
    StaysStuck(l, n);
    SpanWay(l.x0, l.x1);
    SpanWay(l.y0, l.y1);
  }

  /** How far the error term can have gone after n turns. */
  lemma {:induction false} ErrorAfter(l: Line, n: nat)
    ensures Abs(LoopAt(l, n).2) <= (n + 1) * (Abs(Span(l.x0, l.x1)) + Abs(Span(l.y0, l.y1)))
  {
    var dx, dy := Span(l.x0, l.x1), Span(l.y0, l.y1);
    var m := Abs(dx) + Abs(dy);
    if n == 0 {
      assert (n + 1) * m == m;
    } else {
      ErrorAfter(l, n - 1);
      var (x, y, err) := LoopAt(l, n - 1);
      ErrorTurn(dx, dy, Way(l.x0, l.x1), Way(l.y0, l.y1), x, y, err);
      assert (n + 1) * m == n * m + m;
    }
  }

  lemma ErrorTurn(dx: int, dy: int, sx: int, sy: int, x: int, y: int, err: int)
    ensures Abs(LoopTurn(dx, dy, sx, sy, x, y, err).2) <= Abs(err) + Abs(dx) + Abs(dy)
  {
  }

  /** The turns for which twice the error term certainly fits an int, so that C's loop is this one. */
  predicate InInt(l: Line, n: nat) {
    2 * ((n + 1) * (Abs(Span(l.x0, l.x1)) + Abs(Span(l.y0, l.y1)))) < 0x8000_0000
  }

  lemma TurnFits(l: Line, n: nat)
    requires InInt(l, n)
    ensures Abs(2 * LoopAt(l, n).2) < 0x8000_0000
  {
    ErrorAfter(l, n);
  }

  /**
   The bar of the text cursor with the mouse at the left edge of the screen: no turn ends it,
   and the first 178 956 969 are certain to be C's.
   */
  lemma CursorBarNeverEnds(y: int, n: nat)
    requires Abs(y) < REACH
    ensures !Ends(Line(-3, y, 3, y), n)
    ensures n < 178_956_969 ==> InInt(Line(-3, y, 3, y), n) && Abs(2 * LoopAt(Line(-3, y, 3, y), n).2) < 0x8000_0000
  {
    var l := Line(-3, y, 3, y);
    NeverEnds(l, n);
    UnsignedOf(-3);
    UnsignedOf(3);
    UnsignedOf(-6);
    assert Span(-3, 3) == -6 && Span(y, y) == 0;
    if n < 178_956_969 {
      TurnFits(l, n);
    }
  }

  // ---------------------------------------------------------------- circles

  /** The decision variable of the circle loop at the point (x, y). */
  function CircleErr(r: nat, x: int, y: int): int {
    x * x + y * y + 2 * y - r * r
  }

  /** A point of the octant 0 <= b <= a: a is the integer square root of r*r - b*b - 2*b. */
  predicate OctantPoint(r: nat, a: int, b: int) {
    0 <= b <= a && CircleErr(r, a, b) <= 0 < CircleErr(r, a + 1, b)
  }

  lemma SquareLe(u: int, v: int)
    requires 0 <= u <= v
    ensures u * u <= v * v
  {
    MulLe(u, v, u);
    MulLe(u, v, v);
    assert u * v == v * u;
  }

  /** Each row of the octant holds at most one point. */
  lemma OctantUnique(r: nat, a: int, a': int, b: int)
    requires OctantPoint(r, a, b) && OctantPoint(r, a', b)
    ensures a == a'
  {
    if a < a' {
      SquareLe(a + 1, a');
    } else if a' < a {
      SquareLe(a' + 1, a);
    }
  }

  /** Once x has fallen below y no further row has a point. */
  lemma OctantEnds(r: nat, x: int, y: int, a: int, b: int)
    requires 0 <= x + 1 <= y <= b && CircleErr(r, x + 1, y) > 0
    ensures !OctantPoint(r, a, b)
  {
    if OctantPoint(r, a, b) {
      SquareLe(x + 1, a);
      SquareLe(y, b);
    }
  }

  /** The pair of updates at the end of the loop body. */
  function CircleNext(x: int, y: int, err: int): (int, int, int) {
    var (y', e) := if err <= 0 then (y + 1, err + (2 * (y + 1) + 1)) else (y, err);
    if e > 0 then (x - 1, y', e - (2 * (x - 1) + 1)) else (x, y', e)
  }

  /** The loop's variables at its top: (x, y) is the octant's point of row y unless the octant is done. */
  predicate CircleAt(r: nat, x: int, y: int, err: int) {
    0 <= y <= x + 2 && 0 <= x + 1 && x <= r && err == CircleErr(r, x, y) && CircleErr(r, x + 1, y) > 0 && (x >= y ==> err <= 0)
  }

  /** The loop starts at (r, 0). */
  lemma CircleStart(r: nat)
    ensures CircleAt(r, r, 0, 0)
  {
    assert (r + 1) * (r + 1) == r * r + 2 * r + 1;
  }

  /** Each turn of the loop moves on by one row. */
  lemma CircleStep(r: nat, x: int, y: int, err: int)
    requires CircleAt(r, x, y, err) && x >= y
    ensures OctantPoint(r, x, y)
    ensures var (x', y', err') := CircleNext(x, y, err);
            CircleAt(r, x', y', err') && y' == y + 1 && x' <= x
  {
    assert (y + 1) * (y + 1) == y * y + 2 * y + 1;
    assert (x - 1) * (x - 1) == x * x - 2 * x + 1;
    assert (x + 1) * (x + 1) == x * x + 2 * x + 1;
  }

  /**
   The octant's point of row b is the rightmost one whose upper neighbour (a, b + 1) is within
   squared distance r * r + 1; so it lies in the disc, and its diagonal neighbour outside.
   */
  lemma OctantIsRightmost(r: nat, a: int, b: int)
    ensures OctantPoint(r, a, b) <==>
              0 <= b <= a && a * a + (b + 1) * (b + 1) <= r * r + 1 < (a + 1) * (a + 1) + (b + 1) * (b + 1)
    ensures OctantPoint(r, a, b) ==> a * a + b * b <= r * r < (a + 1) * (a + 1) + (b + 1) * (b + 1)
  {
    NextSquare(b);
  }

  lemma NextSquare(b: int)
    ensures (b + 1) * (b + 1) == b * b + 2 * b + 1
  {
  }

  lemma OctantInRadius(r: nat, a: int, b: int)
    requires OctantPoint(r, a, b)
    ensures b <= a <= r
  {
    assert (r + 1) * (r + 1) == r * r + 2 * r + 1;
    MulNonNegative(b, b);
    if a > r {
      SquareLe(r + 1, a);
    }
  }
}
