/** Physical memory as octets, and little-endian fields in it. */
module Memory {
  import opened Arithmetic
  import opened Bytes

  /** Octet `i` of `x`, as `(x >> 8*i) & 0xFF`. */
  function Octet(x: nat, i: nat): Byte {
    if i == 0 then x % 256 else Octet(x / 256, i - 1)
  }

  function Octets(x: nat, n: nat): (o: seq<Byte>)
    ensures |o| == n
  {
    seq(n, i requires 0 <= i < n => Octet(x, i))
  }

  function Pow256(n: nat): nat {
    if n == 0 then 1 else 256 * Pow256(n - 1)
  }

  /** `n` octets carry a number modulo 256^n. */
  lemma {:induction false} OctetTail(x: nat, n: nat)
    ensures Pow256(n) > 0
    ensures LittleEndian(Octets(x, n)) == x % Pow256(n)
  {
    if n > 0 {
      OctetTail(x / 256, n - 1);
      assert Octets(x, n)[1..] == Octets(x / 256, n - 1);
      ModStep(x, Pow256(n - 1));
    } else {
      assert Octets(x, 0) == [];
    }
  }

  /** The unsigned little-endian field of `n` octets at address `a`. */
  function Field(m: seq<Byte>, a: nat, n: nat): (v: nat)
    requires a + n <= |m|
    ensures v < Pow256(n)
    decreases n, a, m
  {
    if n == 0 then 0 else m[a] + 256 * Field(m, a + 1, n - 1)
  }

  /** A field is decided by its octets. */
  lemma {:induction false} SameField(m: seq<Byte>, m': seq<Byte>, a: nat, n: nat)
    requires a + n <= |m| && |m| == |m'| && forall k :: a <= k < a + n ==> m[k] == m'[k]
    ensures Field(m, a, n) == Field(m', a, n)
    decreases n
  {
    if n > 0 {
      SameField(m, m', a + 1, n - 1);
    }
  }

  /** A field that holds the octets of a number holds the number. */
  lemma {:induction false} FieldOfOctets(m: seq<Byte>, a: nat, n: nat, v: nat)
    requires a + n <= |m| && forall i :: 0 <= i < n ==> m[a + i] == Octet(v, i)
    ensures Pow256(n) > 0 && Field(m, a, n) == v % Pow256(n)
    decreases n
  {
    if n > 0 {
      forall i | 0 <= i < n - 1
        ensures m[a + 1 + i] == Octet(v / 256, i)
      {
        assert m[a + (i + 1)] == Octet(v, i + 1);
      }
      FieldOfOctets(m, a + 1, n - 1, v / 256);
      ModStep(v, Pow256(n - 1));
      assert m[a + 0] == Octet(v, 0);
    }
  }

  /** Each octet of a field's value is the octet in memory. */
  lemma {:induction false} OctetOfField(m: seq<Byte>, a: nat, n: nat, i: nat)
    requires a + n <= |m| && i < n
    ensures Octet(Field(m, a, n), i) == m[a + i]
    decreases n
  {
    var rest := Field(m, a + 1, n - 1);
    DivModUnique(m[a] + 256 * rest, 256, rest, m[a]);
    if i > 0 {
      OctetOfField(m, a + 1, n - 1, i - 1);
    }
  }

  lemma WordSizes()
    ensures Pow256(2) == TWO16 && Pow256(8) == TWO64
  {
    assert Pow256(2) == 0x1_0000 && Pow256(4) == TWO32 && Pow256(6) == TWO48;
  }

  /** A 64-bit store. */
  method StoreQword(mem: array<Byte>, a: nat, v: nat)
    requires a + 8 <= mem.Length && v < TWO64
    modifies mem
    ensures forall i :: 0 <= i < 8 ==> mem[a + i] == Octet(v, i)
    ensures Field(mem[..], a, 8) == v
    ensures forall k :: 0 <= k < mem.Length && !(a <= k < a + 8) ==> mem[k] == old(mem[k])
  {
    var i := 0;
    while i < 8
      invariant 0 <= i <= 8
      invariant forall k :: 0 <= k < mem.Length ==> mem[k] == if a <= k < a + i then Octet(v, k - a) else old(mem[k])
    {
      mem[a + i] := Octet(v, i);
      i := i + 1;
    }
    WordSizes();
    FieldOfOctets(mem[..], a, 8, v);
  }
}
