/**
 The ChaCha20 block function of RFC 8439 sections 2.1 to 2.4, as kernel/rng_core.h
 implements it, the byte order of its keystream, and its inverse.  A word is a wrapped
 32-bit vector.
 */
module ChaCha {
  import opened Bytes

  datatype Word = W(bits: bv32)

  /** The block counter, a number below 2^32. */
  type Counter = n: int | 0 <= n < TWO32

  function Add(a: bv32, b: bv32): bv32 { a + b }
  function Sub(a: bv32, b: bv32): bv32 { a - b }
  function Xor(a: bv32, b: bv32): bv32 { a ^ b }

  function Rotl16(v: bv32): bv32 { (v << 16) | (v >> 16) }
  function Rotl12(v: bv32): bv32 { (v << 12) | (v >> 20) }
  function Rotl8(v: bv32): bv32 { (v << 8) | (v >> 24) }
  function Rotl7(v: bv32): bv32 { (v << 7) | (v >> 25) }

  function Rotr16(v: bv32): bv32 { (v >> 16) | (v << 16) }
  function Rotr12(v: bv32): bv32 { (v >> 12) | (v << 20) }
  function Rotr8(v: bv32): bv32 { (v >> 8) | (v << 24) }
  function Rotr7(v: bv32): bv32 { (v >> 7) | (v << 25) }

  lemma Rotations(v: bv32)
    ensures Rotr16(Rotl16(v)) == v && Rotl16(Rotr16(v)) == v && Rotr12(Rotl12(v)) == v && Rotl12(Rotr12(v)) == v
    ensures Rotr8(Rotl8(v)) == v && Rotl8(Rotr8(v)) == v && Rotr7(Rotl7(v)) == v && Rotl7(Rotr7(v)) == v
  {
  }

  // The operations on compound terms first: the solver simplifies those, and the rest is congruence.
  lemma AddSub(a: bv32, b: bv32)
    ensures Sub(Add(a, b), b) == a && Add(Sub(a, b), b) == a
  {
    assert Sub(a + b, b) == a;
    assert Add(a - b, b) == a;
  }

  lemma XorTwice(a: bv32, b: bv32)
    ensures Xor(Xor(a, b), b) == a
  {
  }

  function XorWord(a: Word, b: Word): Word { W(Xor(a.bits, b.bits)) }

  lemma XorWordTwice(a: Word, b: Word)
    ensures XorWord(XorWord(a, b), b) == a
  {
    XorTwice(a.bits, b.bits);
  }

  lemma XorZero(a: Word)
    ensures XorWord(W(0), a) == a
  {
    assert Xor(0, a.bits) == a.bits;
  }

  // ---------------------------------------------------------------- the quarter round

  datatype Quad = Quad(a: bv32, b: bv32, c: bv32, d: bv32)

  // One line of the quarter round each: add, exclusive or, rotate.
  function Line1(q: Quad): Quad { q.(a := Add(q.a, q.b), d := Rotl16(Xor(q.d, Add(q.a, q.b)))) }
  function Line2(q: Quad): Quad { q.(c := Add(q.c, q.d), b := Rotl12(Xor(q.b, Add(q.c, q.d)))) }
  function Line3(q: Quad): Quad { q.(a := Add(q.a, q.b), d := Rotl8(Xor(q.d, Add(q.a, q.b)))) }
  function Line4(q: Quad): Quad { q.(c := Add(q.c, q.d), b := Rotl7(Xor(q.b, Add(q.c, q.d)))) }

  function UnLine1(q: Quad): Quad { q.(a := Sub(q.a, q.b), d := Xor(Rotr16(q.d), q.a)) }
  function UnLine2(q: Quad): Quad { q.(c := Sub(q.c, q.d), b := Xor(Rotr12(q.b), q.c)) }
  function UnLine3(q: Quad): Quad { q.(a := Sub(q.a, q.b), d := Xor(Rotr8(q.d), q.a)) }
  function UnLine4(q: Quad): Quad { q.(c := Sub(q.c, q.d), b := Xor(Rotr7(q.b), q.c)) }

  lemma Line1Inverse(q: Quad)
    ensures UnLine1(Line1(q)) == q && Line1(UnLine1(q)) == q
  {
    AddSub(q.a, q.b);
    var sum := Add(q.a, q.b);
    Rotations(Xor(q.d, sum));
    XorTwice(q.d, sum);
    Rotations(q.d);
    XorTwice(Rotr16(q.d), q.a);
  }

  lemma Line2Inverse(q: Quad)
    ensures UnLine2(Line2(q)) == q && Line2(UnLine2(q)) == q
  {
    AddSub(q.c, q.d);
    var sum := Add(q.c, q.d);
    Rotations(Xor(q.b, sum));
    XorTwice(q.b, sum);
    Rotations(q.b);
    XorTwice(Rotr12(q.b), q.c);
  }

  lemma Line3Inverse(q: Quad)
    ensures UnLine3(Line3(q)) == q && Line3(UnLine3(q)) == q
  {
    AddSub(q.a, q.b);
    var sum := Add(q.a, q.b);
    Rotations(Xor(q.d, sum));
    XorTwice(q.d, sum);
    Rotations(q.d);
    XorTwice(Rotr8(q.d), q.a);
  }

  lemma Line4Inverse(q: Quad)
    ensures UnLine4(Line4(q)) == q && Line4(UnLine4(q)) == q
  {
    AddSub(q.c, q.d);
    var sum := Add(q.c, q.d);
    Rotations(Xor(q.b, sum));
    XorTwice(q.b, sum);
    Rotations(q.b);
    XorTwice(Rotr7(q.b), q.c);
  }

  function QuarterRound(q: Quad): Quad {
    Line4(Line3(Line2(Line1(q))))
  }

  /** The quarter round run backwards. */
  function UnQuarterRound(q: Quad): Quad {
    UnLine1(UnLine2(UnLine3(UnLine4(q))))
  }

  lemma QuarterInverse(q: Quad)
    ensures UnQuarterRound(QuarterRound(q)) == q && QuarterRound(UnQuarterRound(q)) == q
  {
    Line1Inverse(q);
    Line2Inverse(Line1(q));
    Line3Inverse(Line2(Line1(q)));
    Line4Inverse(Line3(Line2(Line1(q))));
    Line4Inverse(q);
    Line3Inverse(UnLine4(q));
    Line2Inverse(UnLine3(UnLine4(q)));
    Line1Inverse(UnLine2(UnLine3(UnLine4(q))));
  }

  // ---------------------------------------------------------------- the block function

  type Words = s: seq<Word> | |s| == 16 witness seq(16, _ => W(0))

  /** The four state indices a quarter round works on. */
  datatype Indices = Indices(i: nat, j: nat, k: nat, l: nat)

  predicate Distinct(p: Indices) {
    p.i < p.j < p.k < 16 && p.j < p.l < 16 && p.k != p.l
  }

  type Spot = p: Indices | Distinct(p) witness Indices(0, 1, 2, 3)

  function Load(s: Words, p: Spot): Quad {
    Quad(s[p.i].bits, s[p.j].bits, s[p.k].bits, s[p.l].bits)
  }

  /** Four words as a state holds them. */
  datatype Row = Row(a: Word, b: Word, c: Word, d: Word)

  function Wrapped(q: Quad): Row {
    Row(W(q.a), W(q.b), W(q.c), W(q.d))
  }

  function Place(s: Words, p: Spot, r: Row): Words {
    s[p.i := r.a][p.j := r.b][p.k := r.c][p.l := r.d]
  }

  function Store(s: Words, p: Spot, q: Quad): Words {
    Place(s, p, Wrapped(q))
  }

  /** The quarter round on four words of the state. */
  function Turned(s: Words, p: Spot): Words {
    Store(s, p, QuarterRound(Load(s, p)))
  }

  /**
   The same, `depth` calls away.  The solver does not unfold a recursion this deep, so schedules
   are reasoned about without looking at the bits of the words.
   */
  function Hidden(depth: nat, s: Words, p: Spot): Words
    decreases depth, s, p
  {
    if depth == 0 then Turned(s, p) else Hidden(depth - 1, s, p)
  }

  const SEAL: nat := 4

  lemma {:induction false} Shown(depth: nat, s: Words, p: Spot)
    ensures Hidden(depth, s, p) == Turned(s, p)
    decreases depth
  {
    if depth > 0 {
      Shown(depth - 1, s, p);
    }
  }

  function Quarter(s: Words, p: Spot): Words {
    Hidden(SEAL, s, p)
  }

  function UnQuarter(s: Words, p: Spot): Words {
    Store(s, p, UnQuarterRound(Load(s, p)))
  }

  lemma StoreLoad(s: Words, p: Spot, q: Quad)
    ensures Load(Store(s, p, q), p) == q
    ensures Store(Store(s, p, q), p, Load(s, p)) == s
  {
  }

  lemma QuarterUndone(s: Words, p: Spot)
    ensures UnQuarter(Quarter(s, p), p) == s
    ensures Quarter(UnQuarter(s, p), p) == s
  {
    QuarterInverse(Load(s, p));
    Shown(SEAL, s, p);
    Shown(SEAL, UnQuarter(s, p), p);
    StoreLoad(s, p, QuarterRound(Load(s, p)));
    StoreLoad(s, p, UnQuarterRound(Load(s, p)));
  }

  /** Quarter rounds to be done one after the other, the last one outermost. */
  datatype Plan = Start | Then(past: Plan, spot: Spot)

  function Apply(s: Words, plan: Plan): Words
    decreases plan, s
  {
    if plan.Start? then s else Quarter(Apply(s, plan.past), plan.spot)
  }

  /** The inverse quarter rounds in the opposite order. */
  function UnApply(s: Words, plan: Plan): Words
    decreases plan, s
  {
    if plan.Start? then s else UnApply(UnQuarter(s, plan.spot), plan.past)
  }

  /** Any plan of quarter rounds is a bijection on states: each direction undoes the other. */
  lemma {:induction false} PlanInvertible(s: Words, plan: Plan)
    ensures UnApply(Apply(s, plan), plan) == s
    ensures Apply(UnApply(s, plan), plan) == s
    decreases plan
  {
    if plan.Then? {
      QuarterUndone(Apply(s, plan.past), plan.spot);
      PlanInvertible(s, plan.past);
      QuarterUndone(s, plan.spot);
      PlanInvertible(UnQuarter(s, plan.spot), plan.past);
    }
  }

  // The column round and the diagonal round (section 2.3 of RFC 8439).
  const C0: Spot := Indices(0, 4, 8, 12)
  const C1: Spot := Indices(1, 5, 9, 13)
  const C2: Spot := Indices(2, 6, 10, 14)
  const C3: Spot := Indices(3, 7, 11, 15)
  const D0: Spot := Indices(0, 5, 10, 15)
  const D1: Spot := Indices(1, 6, 11, 12)
  const D2: Spot := Indices(2, 7, 8, 13)
  const D3: Spot := Indices(3, 4, 9, 14)

  function ThenColumns(plan: Plan): Plan {
    Then(Then(Then(Then(plan, C0), C1), C2), C3)
  }

  function ThenDiagonals(plan: Plan): Plan {
    Then(Then(Then(Then(plan, D0), D1), D2), D3)
  }

  const DOUBLE_ROUNDS: nat := 10

  function Schedule(n: nat): Plan {
    if n == 0 then Start else ThenDiagonals(ThenColumns(Schedule(n - 1)))
  }

  /** The twenty rounds of the block function are invertible. */
  lemma RoundsInvertible(s: Words)
    ensures UnApply(Apply(s, Schedule(DOUBLE_ROUNDS)), Schedule(DOUBLE_ROUNDS)) == s
    ensures Apply(UnApply(s, Schedule(DOUBLE_ROUNDS)), Schedule(DOUBLE_ROUNDS)) == s
  {
    PlanInvertible(s, Schedule(DOUBLE_ROUNDS));
  }

  const SIGMA: seq<Word> := [W(0x61707865), W(0x3320646e), W(0x79622d32), W(0x6b206574)]

  /** The initial state: constants, key, counter, nonce. */
  function Initial(key: seq<Word>, counter: Counter, nonce: seq<Word>): Words
    requires |key| == 8 && |nonce| == 3
  {
    SIGMA + key + [W(counter as bv32)] + nonce
  }

  /** Word-wise sum of two states. */
  function Sum(a: Words, b: Words): (r: Words)
    ensures forall i :: 0 <= i < 16 ==> r[i] == W(Add(a[i].bits, b[i].bits))
  {
    seq(16, i requires 0 <= i < 16 => W(Add(a[i].bits, b[i].bits)))
  }

  /** `n` double rounds plus the feed-forward of the initial state. */
  function Mixed(n: nat, key: seq<Word>, counter: Counter, nonce: seq<Word>): Words
    requires |key| == 8 && |nonce| == 3
  {
    var st := Initial(key, counter, nonce);
    Sum(Apply(st, Schedule(n)), st)
  }

  /**
   The same, `depth` calls away.  The solver does not unfold a recursion this deep, so the
   users of Block reason about it as a function without looking inside.
   */
  function Sealed(depth: nat, n: nat, key: seq<Word>, counter: Counter, nonce: seq<Word>): Words
    requires |key| == 8 && |nonce| == 3
    decreases depth, n, key, counter, nonce
  {
    if depth == 0 then Mixed(n, key, counter, nonce) else Sealed(depth - 1, n, key, counter, nonce)
  }

  /** The block function. */
  function Block(key: seq<Word>, counter: Counter, nonce: seq<Word>): Words
    requires |key| == 8 && |nonce| == 3
  {
    Sealed(SEAL, DOUBLE_ROUNDS, key, counter, nonce)
  }

  lemma {:induction false} Unseal(depth: nat, n: nat, key: seq<Word>, counter: Counter, nonce: seq<Word>)
    requires |key| == 8 && |nonce| == 3
    ensures Sealed(depth, n, key, counter, nonce) == Mixed(n, key, counter, nonce)
  {
    if depth > 0 {
      Unseal(depth - 1, n, key, counter, nonce);
    }
  }

  /** Word-wise difference of two states. */
  function Difference(a: Words, b: Words): (r: Words)
    ensures forall i :: 0 <= i < 16 ==> r[i] == W(Sub(a[i].bits, b[i].bits))
  {
    seq(16, i requires 0 <= i < 16 => W(Sub(a[i].bits, b[i].bits)))
  }

  lemma SumUndone(a: Words, b: Words)
    ensures Difference(Sum(a, b), b) == a
  {
    forall i | 0 <= i < 16
      ensures Difference(Sum(a, b), b)[i] == a[i]
    {
      AddSub(a[i].bits, b[i].bits);
    }
  }

  /**
   The block is an invertible permutation of the initial state plus that state: take the
   initial state off again and run the rounds backwards, and the initial state is back.
   */
  lemma BlockUndone(key: seq<Word>, counter: Counter, nonce: seq<Word>)
    requires |key| == 8 && |nonce| == 3
    ensures var st := Initial(key, counter, nonce);
            UnApply(Difference(Block(key, counter, nonce), st), Schedule(DOUBLE_ROUNDS)) == st
  {
    MixedUndone(DOUBLE_ROUNDS, key, counter, nonce);
    Unseal(SEAL, DOUBLE_ROUNDS, key, counter, nonce);
  }

  lemma MixedUndone(n: nat, key: seq<Word>, counter: Counter, nonce: seq<Word>)
    requires |key| == 8 && |nonce| == 3
    ensures var st := Initial(key, counter, nonce);
            UnApply(Difference(Mixed(n, key, counter, nonce), st), Schedule(n)) == st
  {
    var st := Initial(key, counter, nonce);
    SumUndone(Apply(st, Schedule(n)), st);
    PlanInvertible(st, Schedule(n));
  }

  /** One RNGC_QR, in place. */
  method QuarterInPlace(x: array<Word>, p: Spot)
    requires x.Length == 16
    modifies x
    ensures x[..] == Quarter(old(x[..]), p)
  {
    var a, b, c, d := x[p.i].bits, x[p.j].bits, x[p.k].bits, x[p.l].bits;
    ghost var q0 := Quad(a, b, c, d);
    a := Add(a, b); d := Rotl16(Xor(d, a));
    ghost var q1 := Quad(a, b, c, d);
    assert q1 == Line1(q0);
    c := Add(c, d); b := Rotl12(Xor(b, c));
    ghost var q2 := Quad(a, b, c, d);
    assert q2 == Line2(q1);
    a := Add(a, b); d := Rotl8(Xor(d, a));
    ghost var q3 := Quad(a, b, c, d);
    assert q3 == Line3(q2);
    c := Add(c, d); b := Rotl7(Xor(b, c));
    assert Quad(a, b, c, d) == Line4(q3);
    x[p.i], x[p.j], x[p.k], x[p.l] := W(a), W(b), W(c), W(d);
    Shown(SEAL, old(x[..]), p);
  }

  /** One quarter round after those already done. */
  method QuarterOn(x: array<Word>, p: Spot, ghost st: Words, ghost done: Plan)
    requires x.Length == 16 && x[..] == Apply(st, done)
    modifies x
    ensures x[..] == Apply(st, Then(done, p))
  {
    QuarterInPlace(x, p);
  }

  /** The first half of a turn of the round loop. */
  method ColumnRound(x: array<Word>, ghost st: Words, ghost done: Plan)
    requires x.Length == 16 && x[..] == Apply(st, done)
    modifies x
    ensures x[..] == Apply(st, ThenColumns(done))
  {
    QuarterOn(x, Indices(0, 4, 8, 12), st, done);
    QuarterOn(x, Indices(1, 5, 9, 13), st, Then(done, C0));
    QuarterOn(x, Indices(2, 6, 10, 14), st, Then(Then(done, C0), C1));
    QuarterOn(x, Indices(3, 7, 11, 15), st, Then(Then(Then(done, C0), C1), C2));
  }

  /** The second half of a turn of the round loop. */
  method DiagonalRound(x: array<Word>, ghost st: Words, ghost done: Plan)
    requires x.Length == 16 && x[..] == Apply(st, done)
    modifies x
    ensures x[..] == Apply(st, ThenDiagonals(done))
  {
    QuarterOn(x, Indices(0, 5, 10, 15), st, done);
    QuarterOn(x, Indices(1, 6, 11, 12), st, Then(done, D0));
    QuarterOn(x, Indices(2, 7, 8, 13), st, Then(Then(done, D0), D1));
    QuarterOn(x, Indices(3, 4, 9, 14), st, Then(Then(Then(done, D0), D1), D2));
  }

  /** The feed-forward addition of the initial state. */
  method AddState(x: array<Word>, st: Words)
    requires x.Length == 16
    modifies x
    ensures x[..] == Sum(old(x[..]), st)
  {
    var i := 0;
    while i < 16
      invariant 0 <= i <= 16
      invariant forall k :: 0 <= k < i ==> x[k] == W(Add(old(x[k]).bits, st[k].bits))
      invariant forall k :: i <= k < 16 ==> x[k] == old(x[k])
    {
      x[i] := W(Add(x[i].bits, st[i].bits));
      i := i + 1;
    }
  }

  /** The round loop of rngc_chacha20_block, for any number of double rounds. */
  method Rounds(x: array<Word>, n: nat, ghost st: Words)
    requires x.Length == 16 && x[..] == st
    modifies x
    ensures x[..] == Apply(st, Schedule(n))
  {
    var round := 0;
    while round < n
      invariant 0 <= round <= n
      invariant x[..] == Apply(st, Schedule(round))
    {
      ColumnRound(x, st, Schedule(round));
      DiagonalRound(x, st, ThenColumns(Schedule(round)));
      round := round + 1;
    }
  }

  /** rngc_chacha20_block. */
  method ComputeBlock(key: seq<Word>, counter: Counter, nonce: seq<Word>) returns (out: seq<Word>)
    requires |key| == 8 && |nonce| == 3
    ensures out == Block(key, counter, nonce)
  {
    var st := SIGMA + key + [W(counter as bv32)] + nonce;
    var x := new Word[16](i requires 0 <= i < 16 => st[i]);
    assert x[..] == st;
    Rounds(x, DOUBLE_ROUNDS, st);
    AddState(x, st);
    out := x[..];
    Unseal(SEAL, DOUBLE_ROUNDS, key, counter, nonce);
  }

  // ---------------------------------------------------------------- bytes

  /** A word shifted right by `j` octets. */
  function Shifted(v: bv32, j: nat): bv32
    requires j < 4
  {
    if j == 0 then v else if j == 1 then v >> 8 else if j == 2 then v >> 16 else v >> 24
  }

  /** Octet `j` of a word, least significant first. */
  function WordByte(w: Word, j: nat): Byte
    requires j < 4
  {
    LowByte(Shifted(w.bits, j))
  }

  /** `(uint8_t)v`. */
  function LowByte(v: bv32): Byte {
    ((v & 0xFF) as bv8) as int
  }

  function Join(b0: bv32, b1: bv32, b2: bv32, b3: bv32): bv32 {
    b0 | (b1 << 8) | (b2 << 16) | (b3 << 24)
  }

  /** rngc_le32. */
  function Loaded(b: seq<Byte>): Word
    requires |b| >= 4
  {
    W(Join((b[0] as bv8) as bv32, (b[1] as bv8) as bv32, (b[2] as bv8) as bv32, (b[3] as bv8) as bv32))
  }

  /** The same, `depth` calls away, so that its users need not look at bits. */
  function LoadedAway(depth: nat, b: seq<Byte>): Word
    requires |b| >= 4
    decreases depth, b
  {
    if depth == 0 then Loaded(b) else LoadedAway(depth - 1, b)
  }

  function Le32(b: seq<Byte>): Word
    requires |b| >= 4
  {
    LoadedAway(SEAL, b)
  }

  lemma {:induction false} LoadedHere(depth: nat, b: seq<Byte>)
    requires |b| >= 4
    ensures LoadedAway(depth, b) == Loaded(b)
    decreases depth
  {
    if depth > 0 {
      LoadedHere(depth - 1, b);
    }
  }

  lemma ByteBack(v: bv32)
    ensures (LowByte(v) as bv8) as bv32 == v & 0xFF
  {
  }

  lemma Joined(v: bv32)
    ensures Join(Shifted(v, 0) & 0xFF, Shifted(v, 1) & 0xFF, Shifted(v, 2) & 0xFF, Shifted(v, 3) & 0xFF) == v
  {
  }

  lemma WordBytes(w: Word, b: seq<Byte>)
    requires |b| >= 4 && forall j :: 0 <= j < 4 ==> b[j] == WordByte(w, j)
    ensures Le32(b) == w
  {
    ByteBack(Shifted(w.bits, 0));
    ByteBack(Shifted(w.bits, 1));
    ByteBack(Shifted(w.bits, 2));
    ByteBack(Shifted(w.bits, 3));
    Joined(w.bits);
    LoadedHere(SEAL, b);
    assert b[0] == WordByte(w, 0) && b[1] == WordByte(w, 1) && b[2] == WordByte(w, 2) && b[3] == WordByte(w, 3);
  }

  /** The 64 bytes of a block in keystream order. */
  function Serialise(words: Words): (b: seq<Byte>)
    ensures |b| == 64
    ensures forall i :: 0 <= i < 64 ==> b[i] == WordByte(words[i / 4], i % 4)
  {
    seq(64, i requires 0 <= i < 64 => WordByte(words[i / 4], i % 4))
  }

  function BlockBytes(key: seq<Word>, counter: Counter, nonce: seq<Word>): (b: seq<Byte>)
    requires |key| == 8 && |nonce| == 3
    ensures |b| == 64
  {
    Serialise(Block(key, counter, nonce))
  }

  method StoreWord(out: array<Byte>, i: nat, w: Word)
    requires out.Length == 64 && i < 16
    modifies out
    ensures forall k :: 0 <= k < 64 ==> out[k] == if k / 4 == i then WordByte(w, k % 4) else old(out[k])
  {
    out[i * 4 + 0] := WordByte(w, 0);
    out[i * 4 + 1] := WordByte(w, 1);
    out[i * 4 + 2] := WordByte(w, 2);
    out[i * 4 + 3] := WordByte(w, 3);
  }

  /** rngc_chacha20_block_bytes. */
  method ComputeBlockBytes(key: seq<Word>, counter: Counter, nonce: seq<Word>) returns (out: array<Byte>)
    requires |key| == 8 && |nonce| == 3
    ensures fresh(out) && out[..] == BlockBytes(key, counter, nonce)
  {
    var w := ComputeBlock(key, counter, nonce);
    out := new Byte[64](_ => 0);
    var i := 0;
    while i < 16
      invariant 0 <= i <= 16
      invariant out.Length == 64 && forall k :: 0 <= k < 4 * i ==> out[k] == WordByte(w[k / 4], k % 4)
    {
      StoreWord(out, i, w[i]);
      i := i + 1;
    }
    assert out[..] == Serialise(w);
  }
}
