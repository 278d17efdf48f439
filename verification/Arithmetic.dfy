/** Division facts that the solver does not find by itself. */
module Arithmetic {
  lemma QuotientUnique(d: int, q: int, r: int, q': int, r': int)
    requires d > 0 && 0 <= r < d && 0 <= r' < d && d * q + r == d * q' + r'
    ensures q == q' && r == r'
  {
    if q > q' {
      assert d * (q - q') == d * q - d * q';
      MulAtLeast(d, q - q');
    } else if q < q' {
      assert d * (q' - q) == d * q' - d * q;
      MulAtLeast(d, q' - q);
    }
  }

  lemma MulAtLeast(d: int, k: int)
    requires d > 0 && k >= 1
    ensures d * k >= d
  {
    assert d * k == d * (k - 1) + d;
    MulNonNegative(d, k - 1);
  }

  lemma MulNonNegative(a: int, b: int)
    requires a >= 0 && b >= 0
    ensures a * b >= 0
  {
  }

  lemma MulLe(a: int, b: int, c: int)
    requires a <= b && 0 <= c
    ensures a * c <= b * c
  {
    MulNonNegative(b - a, c);
    assert (b - a) * c == b * c - a * c;
  }

  /** Quotient and remainder are determined by their defining equation. */
  lemma DivModUnique(x: int, d: int, q: int, r: int)
    requires d > 0 && x == d * q + r && 0 <= r < d
    ensures x / d == q && x % d == r
  {
    QuotientUnique(d, q, r, x / d, x % d);
  }

  lemma QuotientLe(x: int, y: int, d: int)
    requires x <= y && d > 0
    ensures x / d <= y / d
  {
    var p, q := x / d, y / d;
    assert x == d * p + x % d && y == d * q + y % d && (q + 1) * d == d * q + d && p * d == d * p;
    if p > q {
      MulLe(q + 1, p, d);
    }
  }

  lemma QuotientStep(x: int, d: int)
    requires d > 1
    ensures x / d - (x - 1) / d == if x % d == 0 then 1 else 0
  {
    var q, r := x / d, x % d;
    if r == 0 {
      assert d * (q - 1) == d * q - d;
      DivModUnique(x - 1, d, q - 1, d - 1);
    } else {
      DivModUnique(x - 1, d, q, r - 1);
    }
  }

  /** One digit in base 256 split off the front of a remainder. */
  lemma ModStep(x: nat, m: nat)
    requires m > 0
    ensures x % 256 + 256 * (x / 256 % m) == x % (256 * m)
  {
    var q, r := x / 256 / m, x / 256 % m;
    assert x / 256 == m * q + r;
    assert 256 * (m * q) == (256 * m) * q;
    DivModUnique(x, 256 * m, q, 256 * r + x % 256);
  }

  lemma ModAdd(a: int, b: int, m: int)
    requires m > 0
    ensures (a % m + b) % m == (a + b) % m
  {
    var t := a % m + b;
    assert m * (a / m + t / m) == m * (a / m) + m * (t / m);
    DivModUnique(a + b, m, a / m + t / m, t % m);
  }
}
