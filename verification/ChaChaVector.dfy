/**
 ChaCha20 against the numbers of RFC 8439.  The round functions are written out as section 2.3
 gives them, word by word, and tied to the schedule; the test vectors of sections 2.1.1 and
 2.3.2 then fix what the quarter round, the rounds and the whole block compute.
 */
module ChaChaVector {
  import opened Bytes
  import opened ChaCha

  // The results of four quarter rounds, put where a column round and a diagonal round put them.
  function InColumns(p: Row, q: Row, r: Row, t: Row): Words {
    [p.a, q.a, r.a, t.a, p.b, q.b, r.b, t.b, p.c, q.c, r.c, t.c, p.d, q.d, r.d, t.d]
  }

  function InDiagonals(p: Row, q: Row, r: Row, t: Row): Words {
    [p.a, q.a, r.a, t.a, t.b, p.b, q.b, r.b, r.c, t.c, p.c, q.c, q.d, r.d, t.d, p.d]
  }

  /** The quarter round of four words of a state. */
  function QuarterOf(a: Word, b: Word, c: Word, d: Word): Row {
    Wrapped(QuarterRound(Quad(a.bits, b.bits, c.bits, d.bits)))
  }

  function ColumnRoundOf(s: Words): Words {
    InColumns(QuarterOf(s[0], s[4], s[8], s[12]), QuarterOf(s[1], s[5], s[9], s[13]),
              QuarterOf(s[2], s[6], s[10], s[14]), QuarterOf(s[3], s[7], s[11], s[15]))
  }

  function DiagonalRoundOf(s: Words): Words {
    InDiagonals(QuarterOf(s[0], s[5], s[10], s[15]), QuarterOf(s[1], s[6], s[11], s[12]),
                QuarterOf(s[2], s[7], s[8], s[13]), QuarterOf(s[3], s[4], s[9], s[14]))
  }

  // ---------------------------------------------------------------- the schedule is these rounds

  lemma PlacedInColumns(s: Words, p: Row, q: Row, r: Row, t: Row)
    ensures Place(Place(Place(Place(s, C0, p), C1, q), C2, r), C3, t) == InColumns(p, q, r, t)
  {
  }

  lemma PlacedInDiagonals(s: Words, p: Row, q: Row, r: Row, t: Row)
    ensures Place(Place(Place(Place(s, D0, p), D1, q), D2, r), D3, t) == InDiagonals(p, q, r, t)
  {
  }

  lemma ApplyFour(s: Words, done: Plan, a: Spot, b: Spot, c: Spot, d: Spot)
    ensures Apply(s, Then(Then(Then(Then(done, a), b), c), d)) == Quarter(Quarter(Quarter(Quarter(Apply(s, done), a), b), c), d)
  {
    assert Apply(s, Then(Then(done, a), b)) == Quarter(Quarter(Apply(s, done), a), b);
  }

  lemma QuarterColumns(s: Words)
    ensures Quarter(Quarter(Quarter(Quarter(s, C0), C1), C2), C3) == ColumnRoundOf(s)
  {
    var s1 := Turned(s, C0);
    var s2 := Turned(s1, C1);
    var s3 := Turned(s2, C2);
    Shown(SEAL, s, C0);
    Shown(SEAL, s1, C1);
    Shown(SEAL, s2, C2);
    Shown(SEAL, s3, C3);
    assert Load(s1, C1) == Load(s, C1) && Load(s2, C2) == Load(s, C2) && Load(s3, C3) == Load(s, C3);
    PlacedInColumns(s, Wrapped(QuarterRound(Load(s, C0))), Wrapped(QuarterRound(Load(s, C1))), Wrapped(QuarterRound(Load(s, C2))),
                    Wrapped(QuarterRound(Load(s, C3))));
  }

  lemma QuarterDiagonals(s: Words)
    ensures Quarter(Quarter(Quarter(Quarter(s, D0), D1), D2), D3) == DiagonalRoundOf(s)
  {
    var s1 := Turned(s, D0);
    var s2 := Turned(s1, D1);
    var s3 := Turned(s2, D2);
    Shown(SEAL, s, D0);
    Shown(SEAL, s1, D1);
    Shown(SEAL, s2, D2);
    Shown(SEAL, s3, D3);
    assert Load(s1, D1) == Load(s, D1) && Load(s2, D2) == Load(s, D2) && Load(s3, D3) == Load(s, D3);
    PlacedInDiagonals(s, Wrapped(QuarterRound(Load(s, D0))), Wrapped(QuarterRound(Load(s, D1))), Wrapped(QuarterRound(Load(s, D2))),
                    Wrapped(QuarterRound(Load(s, D3))));
  }

  /** Eight quarter rounds of the schedule are a column round and a diagonal round of the RFC. */
  lemma OneDoubleRound(s: Words, done: Plan)
    ensures Apply(s, ThenDiagonals(ThenColumns(done))) == DiagonalRoundOf(ColumnRoundOf(Apply(s, done)))
  {
    ApplyFour(s, done, C0, C1, C2, C3);
    QuarterColumns(Apply(s, done));
    ApplyFour(s, ThenColumns(done), D0, D1, D2, D3);
    QuarterDiagonals(Apply(s, ThenColumns(done)));
  }

  // ---------------------------------------------------------------- test vectors

  /** The constants are the text of section 2.3. */
  lemma SigmaSpelt()
    ensures forall i :: 0 <= i < 16 ==> WordByte(SIGMA[i / 4], i % 4) == Ascii("expand 32-byte k")[i]
  {
  }

  /** Section 2.1.1. */
  lemma QuarterVector()
    ensures QuarterRound(Quad(0x11111111, 0x01020304, 0x9b8d6f43, 0x01234567))
         == Quad(0xea2a92f4, 0xcb1cf8ce, 0x4581472e, 0x5881c4bb)
  {
  }

  // The state of section 2.3.2 before the rounds and after every four of them, and the block.
  const VECTOR_0: Words :=
    [W(0x61707865), W(0x3320646e), W(0x79622d32), W(0x6b206574), W(0x03020100), W(0x07060504), W(0x0b0a0908), W(0x0f0e0d0c),
     W(0x13121110), W(0x17161514), W(0x1b1a1918), W(0x1f1e1d1c), W(0x00000001), W(0x09000000), W(0x4a000000), W(0x00000000)]
  const VECTOR_4: Words :=
    [W(0xcf1a7584), W(0x048927ec), W(0x54051fda), W(0xc244ff28), W(0x901d2f40), W(0x7974b81c), W(0x378dcfb4), W(0xcd47fd0e),
     W(0x2dafb216), W(0x27c89cd6), W(0xcd3c9aa0), W(0x79fc89c7), W(0x10aef18d), W(0x16218765), W(0x68f76705), W(0x04d6ee22)]
  const VECTOR_8: Words :=
    [W(0x9a2d3589), W(0x0b23fc4e), W(0x40af3b6b), W(0xceea8144), W(0x0a1bffc6), W(0x5e5993f7), W(0x9904c2e7), W(0x0d334718),
     W(0xe46c6354), W(0xc9503229), W(0x04fef5aa), W(0xf8933f72), W(0x2687d476), W(0x54e65231), W(0x3594ffc5), W(0x2b3bb2ca)]
  const VECTOR_12: Words :=
    [W(0x04a3131a), W(0x66176309), W(0x0415bab1), W(0x61b880a2), W(0x36cc86c7), W(0xbf8a4465), W(0xf77dd720), W(0xfc0bdc90),
     W(0x07d13aca), W(0xeb0be9af), W(0x61599491), W(0x918512dc), W(0x33b6686d), W(0x795cc671), W(0xc0049972), W(0xa0a81bde)]
  const VECTOR_16: Words :=
    [W(0xca5c85dd), W(0x93a4f90e), W(0xd9f0df58), W(0x26dd82dd), W(0x982563f8), W(0x712aa9ff), W(0x279a61e8), W(0x970f72bd),
     W(0x1c25931a), W(0x5180bb10), W(0x779c27e7), W(0x54077e08), W(0xa9b751fb), W(0x382f3ce2), W(0x8db1757d), W(0xcc38080b)]
  const VECTOR_20: Words :=
    [W(0x837778ab), W(0xe238d763), W(0xa67ae21e), W(0x5950bb2f), W(0xc4f2d0c7), W(0xfc62bb2f), W(0x8fa018fc), W(0x3f5ec7b7),
     W(0x335271c2), W(0xf29489f3), W(0xeabda8fc), W(0x82e46ebd), W(0xd19c12b4), W(0xb04e16de), W(0x9e83d0cb), W(0x4e3c50a2)]
  const VECTOR: Words :=
    [W(0xe4e7f110), W(0x15593bd1), W(0x1fdd0f50), W(0xc47120a3), W(0xc7f4d1c7), W(0x0368c033), W(0x9aaa2204), W(0x4e6cd4c3),
     W(0x466482d2), W(0x09aa9f07), W(0x05d7c214), W(0xa2028bd9), W(0xd19c12b5), W(0xb94e16de), W(0xe883d0cb), W(0x4e3c50a2)]

  lemma NextDoubleRound(s: Words, n: nat)
    ensures Apply(s, Schedule(n + 1)) == DiagonalRoundOf(ColumnRoundOf(Apply(s, Schedule(n))))
  {
    OneDoubleRound(s, Schedule(n));
  }

  lemma AfterRound4()
    ensures Apply(VECTOR_0, Schedule(2)) == VECTOR_4
  {
    NextDoubleRound(VECTOR_0, 0);
    NextDoubleRound(VECTOR_0, 1);
  }

  lemma AfterRound8()
    ensures Apply(VECTOR_0, Schedule(4)) == VECTOR_8
  {
    AfterRound4();
    NextDoubleRound(VECTOR_0, 2);
    NextDoubleRound(VECTOR_0, 3);
  }

  lemma AfterRound12()
    ensures Apply(VECTOR_0, Schedule(6)) == VECTOR_12
  {
    AfterRound8();
    NextDoubleRound(VECTOR_0, 4);
    NextDoubleRound(VECTOR_0, 5);
  }

  lemma AfterRound16()
    ensures Apply(VECTOR_0, Schedule(8)) == VECTOR_16
  {
    AfterRound12();
    NextDoubleRound(VECTOR_0, 6);
    NextDoubleRound(VECTOR_0, 7);
  }

  lemma AfterRound20()
    ensures Apply(VECTOR_0, Schedule(10)) == VECTOR_20
  {
    AfterRound16();
    NextDoubleRound(VECTOR_0, 8);
    NextDoubleRound(VECTOR_0, 9);
  }

  const VECTOR_KEY: seq<Word> := [W(0x03020100), W(0x07060504), W(0x0b0a0908), W(0x0f0e0d0c),
                                  W(0x13121110), W(0x17161514), W(0x1b1a1918), W(0x1f1e1d1c)]
  const VECTOR_NONCE: seq<Word> := [W(0x09000000), W(0x4a000000), W(0)]

  lemma VectorSum()
    ensures Sum(VECTOR_20, VECTOR_0) == VECTOR
  {
    var s := Sum(VECTOR_20, VECTOR_0);
    assert s[..4] == VECTOR[..4];
    assert s[4..8] == VECTOR[4..8];
    assert s[8..12] == VECTOR[8..12];
    assert s[12..] == VECTOR[12..];
    assert s == s[..4] + s[4..8] + s[8..12] + s[12..];
  }

  lemma InitialVector()
    ensures Initial(VECTOR_KEY, 1, VECTOR_NONCE) == VECTOR_0
  {
  }

  lemma MixedIs(n: nat, key: seq<Word>, counter: Counter, nonce: seq<Word>, st: Words, x: Words, out: Words)
    requires |key| == 8 && |nonce| == 3
    requires Initial(key, counter, nonce) == st && Apply(st, Schedule(n)) == x && Sum(x, st) == out
    ensures Block(key, counter, nonce) == Sealed(SEAL, DOUBLE_ROUNDS, key, counter, nonce)
    ensures Sealed(SEAL, n, key, counter, nonce) == out
  {
    Unseal(SEAL, n, key, counter, nonce);
  }

  /** Section 2.3.2: the block function on the key 00 to 1f, counter 1 and the nonce of the example. */
  lemma BlockVector()
    ensures Block(VECTOR_KEY, 1, VECTOR_NONCE) == VECTOR
  {
    InitialVector();
    AfterRound20();
    VectorSum();
    MixedIs(DOUBLE_ROUNDS, VECTOR_KEY, 1, VECTOR_NONCE, VECTOR_0, VECTOR_20, VECTOR);
  }
}
