/** Shifts and the bitwise or of unsigned numbers, one bit at a time. */
module Bits {
  import opened Arithmetic

  function ShiftLeft(v: nat, n: nat): (r: nat)
    ensures v > 0 ==> r > 0
  {
    if n == 0 then v else 2 * ShiftLeft(v, n - 1)
  }

  lemma {:induction false} ShiftIsProduct(v: nat, n: nat)
    ensures ShiftLeft(v, n) == v * ShiftLeft(1, n)
  {
    if n > 0 {
      ShiftIsProduct(v, n - 1);
      assert v * (2 * ShiftLeft(1, n - 1)) == 2 * (v * ShiftLeft(1, n - 1));
    }
  }

  function ShiftRight(v: nat, n: nat): nat {
    if n == 0 then v else ShiftRight(v, n - 1) / 2
  }

  function Or(a: nat, b: nat): nat
    decreases a, b
  {
    if a == 0 then b else if b == 0 then a
    else (if a % 2 == 1 || b % 2 == 1 then 1 else 0) + 2 * Or(a / 2, b / 2)
  }

  /** Or-ing into bits that are zero is adding. */
  lemma {:induction false} OrIsSum(a: nat, b: nat, n: nat)
    requires a % ShiftLeft(1, n) == 0 && b < ShiftLeft(1, n)
    ensures Or(a, b) == a + b
    decreases n
  {
    if a != 0 && b != 0 {
      var p := ShiftLeft(1, n - 1);
      HalfMultiple(a, p);
      OrIsSum(a / 2, b / 2, n - 1);
    }
  }

  lemma HalfMultiple(a: nat, p: nat)
    requires p > 0 && a % (2 * p) == 0
    ensures a % 2 == 0 && a / 2 % p == 0
  {
    var q := a / (2 * p);
    assert a == 2 * p * q + 0;
    assert 2 * p * q == 2 * (p * q);
    DivModUnique(a, 2, p * q, 0);
    DivModUnique(a / 2, p, q, 0);
  }

  /** Exclusive or of the low n bits. */
  function XorBits(a: nat, b: nat, n: nat): nat
    decreases n, a, b   // all three: the solver would unroll a call whose measure is a literal
  {
    if n == 0 then 0 else (a + b) % 2 + 2 * XorBits(a / 2, b / 2, n - 1)
  }

  function PopCount(v: nat, n: nat): (c: nat)
    ensures c <= n
    decreases n, v
  {
    if n == 0 then 0 else v % 2 + PopCount(v / 2, n - 1)
  }

  /** Bit `i` of a number. */
  function Bit(v: nat, i: nat): nat {
    ShiftRight(v, i) % 2
  }

  /** In how many of the low `n` bits two numbers differ. */
  function Differing(a: nat, b: nat, n: nat): nat
    decreases n, a, b
  {
    if n == 0 then 0 else Differing(a, b, n - 1) + if Bit(a, n - 1) != Bit(b, n - 1) then 1 else 0
  }

  lemma {:induction false} ShiftHalf(v: nat, i: nat)
    ensures ShiftRight(v, i + 1) == ShiftRight(v / 2, i)
  {
    if i > 0 {
      ShiftHalf(v, i - 1);
    }
  }

  lemma {:induction false} LowBitFirst(a: nat, b: nat, n: nat)
    ensures Differing(a, b, n + 1) == (if a % 2 != b % 2 then 1 else 0) + Differing(a / 2, b / 2, n)
    decreases n
  {
    ShiftHalf(a, if n > 0 then n - 1 else 0);
    ShiftHalf(b, if n > 0 then n - 1 else 0);
    if n > 0 {
      LowBitFirst(a, b, n - 1);
      assert Bit(a, n) == Bit(a / 2, n - 1) && Bit(b, n) == Bit(b / 2, n - 1);
    } else {
      assert Differing(a, b, 0) == 0 && Bit(a, 0) == a % 2 && Bit(b, 0) == b % 2;
    }
  }

  lemma ParityOfSum(a: nat, b: nat)
    ensures (a + b) % 2 == if a % 2 != b % 2 then 1 else 0
  {
  }

  /** The ones in the exclusive or are the bits that differ. */
  lemma {:induction false} XorCountsDiffering(a: nat, b: nat, n: nat)
    ensures PopCount(XorBits(a, b, n), n) == Differing(a, b, n)
    decreases n
  {
    if n > 0 {
      LowBitFirst(a, b, n - 1);
      XorCountsDiffering(a / 2, b / 2, n - 1);
      var rest := XorBits(a / 2, b / 2, n - 1);
      DivModUnique((a + b) % 2 + 2 * rest, 2, rest, (a + b) % 2);
      ParityOfSum(a, b);
    }
  }
}
