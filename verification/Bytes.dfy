/** Octets and the truncations that C applies to fixed-width unsigned integers. */
module Bytes {
  type Byte = b: int | 0 <= b < 256

  const TWO16: int := 0x1_0000
  const TWO32: int := 0x1_0000_0000
  const TWO48: int := 0x1_0000_0000_0000
  const TWO64: int := 0x1_0000_0000_0000_0000

  function Min(a: int, b: int): int {
    if a < b then a else b
  }

  /** The unsigned integer whose octets are `b`, least significant first. */
  function LittleEndian(b: seq<Byte>): nat {
    if b == [] then 0 else b[0] + 256 * LittleEndian(b[1..])
  }

  /** The octets of a text. */
  function Ascii(s: string): (b: seq<Byte>)
    requires forall i :: 0 <= i < |s| ==> s[i] < 128 as char
    ensures |b| == |s| && forall i :: 0 <= i < |s| ==> b[i] == s[i] as int
  {
    seq(|s|, i requires 0 <= i < |s| => s[i] as int)
  }

  datatype Option<+T> = None | Some(value: T)

  lemma SliceOfSlice(t: seq<Byte>, a: nat, b: nat, i: nat, j: nat)
    requires i <= j && a + j <= b <= |t|
    ensures t[a..b][i..j] == t[a + i..a + j]
  {
    var x, y := t[a..b][i..j], t[a + i..a + j];
    forall k | 0 <= k < j - i
      ensures x[k] == y[k]
    {
      assert x[k] == t[a..b][i + k];
    }
  }
}
