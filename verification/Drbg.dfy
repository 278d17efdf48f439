/**
 The ChaCha20 generator: seeding, reseeding and filling with immediate re-keying.  The
 value type `Core` is the generator's state; class `Generator` is the struct the C code updates.
 */
module Drbg {
  import opened Arithmetic
  import opened Bytes
  import opened ChaCha

  const SEED_LEN := 48

  datatype Core = Core(key: seq<Word>, nonce: seq<Word>, counter: Counter)

  predicate ValidCore(c: Core) {
    |c.key| == 8 && |c.nonce| == 3
  }

  /** Word `i` of entropy material. */
  function MaterialWord(m: seq<Byte>, i: nat): Word
    requires 4 * i + 4 <= |m|
  {
    Le32(m[4 * i..])
  }

  /** The state that fresh material installs. */
  function Seeded(m: seq<Byte>): (c: Core)
    requires |m| >= SEED_LEN
    ensures ValidCore(c)
  {
    Core(seq(8, i requires 0 <= i < 8 => MaterialWord(m, i)), seq(3, i requires 0 <= i < 3 => MaterialWord(m, 8 + i)), 0)
  }

  /** The state that folding in material leaves. */
  function Reseeded(c: Core, m: seq<Byte>): (r: Core)
    requires ValidCore(c) && |m| >= SEED_LEN
    ensures ValidCore(r)
  {
    Core(seq(8, i requires 0 <= i < 8 => XorWord(c.key[i], MaterialWord(m, i))),
         seq(3, i requires 0 <= i < 3 => XorWord(c.nonce[i], MaterialWord(m, 8 + i))), 0)
  }

  /** The counter of the i-th block from here. */
  function CounterAt(c: Core, i: nat): Counter {
    (c.counter + i) % TWO32
  }

  /** Byte `k` of the keystream of section 2.4 of RFC 8439, starting at the current counter. */
  function Keystream(c: Core, k: nat): Byte
    requires ValidCore(c)
  {
    BlockBytes(c.key, CounterAt(c, k / 64), c.nonce)[k % 64]
  }

  /** Blocks needed to serve `len` bytes. */
  function BlocksFor(len: nat): nat {
    (len + 63) / 64
  }

  /** The state after serving `len` bytes: words 0-7 and 8-10 of the next unused block. */
  function Rekeyed(c: Core, len: nat): (r: Core)
    requires ValidCore(c)
    ensures ValidCore(r) && r.counter == 0
  {
    var w := Block(c.key, CounterAt(c, BlocksFor(len)), c.nonce);
    Core(w[..8], w[8..11], 0)
  }

  /** The zero-initialised generator. */
  const BLANK: Core := Core([W(0), W(0), W(0), W(0), W(0), W(0), W(0), W(0)], [W(0), W(0), W(0)], 0)

  /** What can happen to a generator; DrawOp is a fill that the module makes for itself. */
  datatype GenOp = SeedOp(m: seq<Byte>) | ReseedOp(m: seq<Byte>) | FillOp(len: nat) | DrawOp(len: nat)

  predicate ValidOp(op: GenOp) {
    op.SeedOp? || op.ReseedOp? ==> |op.m| == SEED_LEN
  }

  /** What has been done to a generator, the latest operation outermost. */
  datatype History = Untouched | After(past: History, op: GenOp)

  predicate ValidHistory(h: History) {
    h.After? ==> ValidOp(h.op) && ValidHistory(h.past)
  }

  /** `h'` continues `h`. */
  predicate Continues(h: History, h': History) {
    h == h' || (h'.After? && Continues(h, h'.past))
  }

  function ApplyOp(c: Core, op: GenOp): (r: Core)
    requires ValidCore(c) && ValidOp(op)
    ensures ValidCore(r) && r.counter == 0
  {
    if op.SeedOp? then Seeded(op.m) else if op.ReseedOp? then Reseeded(c, op.m) else Rekeyed(c, op.len)
  }

  /** The state of a generator after a history of operations; every operation leaves the counter at 0. */
  function Eval(h: History): (c: Core)
    requires ValidHistory(h)
    ensures ValidCore(c) && c.counter == 0
  {
    if h.Untouched? then BLANK else ApplyOp(Eval(h.past), h.op)
  }

  lemma MaterialOfBlock(w: Words, i: nat)
    requires i < 11
    ensures MaterialWord(Serialise(w), i) == w[i]
  {
    var m := Serialise(w);
    var b := m[4 * i..];
    forall j | 0 <= j < 4
      ensures b[j] == WordByte(w[i], j)
    {
      assert b[j] == m[4 * i + j] && (4 * i + j) / 4 == i && (4 * i + j) % 4 == j;
    }
    WordBytes(w[i], b);
  }

  /** Seeding with a serialised block installs the block's first eleven words. */
  lemma SeedFromBlock(w: Words)
    ensures Seeded(Serialise(w)) == Core(w[..8], w[8..11], 0)
  {
    var m := Serialise(w);
    forall i | 0 <= i < 11
      ensures MaterialWord(m, i) == w[i]
    {
      MaterialOfBlock(w, i);
    }
    assert Seeded(m).key == w[..8];
    assert Seeded(m).nonce == w[8..11];
  }

  /** Reseeding twice with the same material cancels: no bit of state is lost. */
  lemma ReseedInvertible(c: Core, m: seq<Byte>)
    requires ValidCore(c) && |m| >= SEED_LEN && c.counter == 0
    ensures Reseeded(Reseeded(c, m), m) == c
  {
    var r := Reseeded(Reseeded(c, m), m);
    forall i | 0 <= i < 8
      ensures r.key[i] == c.key[i]
    {
      XorWordTwice(c.key[i], MaterialWord(m, i));
    }
    forall i | 0 <= i < 3
      ensures r.nonce[i] == c.nonce[i]
    {
      XorWordTwice(c.nonce[i], MaterialWord(m, 8 + i));
    }
    assert r.key == c.key && r.nonce == c.nonce;
  }

  /** Reseeding is no less than seeding: folded into the blank state, material installs what seeding installs. */
  lemma ReseedOfBlank(m: seq<Byte>)
    requires |m| >= SEED_LEN
    ensures Reseeded(BLANK, m) == Seeded(m)
  {
    forall i | 0 <= i < 11
      ensures XorWord(W(0), MaterialWord(m, i)) == MaterialWord(m, i)
    {
      XorZero(MaterialWord(m, i));
    }
    assert Reseeded(BLANK, m).key == Seeded(m).key && Reseeded(BLANK, m).nonce == Seeded(m).nonce;
  }

  /** How often a request of `len` bytes runs the block function: for the bytes, and once to re-key. */
  function BlocksUsed(len: nat): nat {
    BlocksFor(len) + 1
  }

  /** The next `n` block positions from a state. */
  function Positions(c: Core, n: nat): (p: seq<Counter>)
    ensures |p| == n
  {
    seq(n, i requires 0 <= i < n => CounterAt(c, i))
  }

  lemma OnePosition(c: Core, n: nat)
    ensures Positions(c, n + 1) == Positions(c, n) + [CounterAt(c, n)]
  {
  }

  ghost predicate NoPositionTwice(p: seq<Counter>) {
    forall i: nat, j: nat :: i < j < |p| ==> p[i] != p[j]
  }

  /** Within one request no block position repeats exactly up to 64 * (2^32 - 1) bytes. */
  lemma PositionsUnique(c: Core, len: nat)
    ensures NoPositionTwice(Positions(c, BlocksUsed(len))) <==> len <= 64 * (TWO32 - 1)
  {
    if len <= 64 * (TWO32 - 1) {
      forall i: nat, j: nat | i < j < BlocksUsed(len)
        ensures Positions(c, BlocksUsed(len))[i] != Positions(c, BlocksUsed(len))[j]
      {
        CountersDiffer(c.counter, i, j);
      }
    } else {
      assert TWO32 < BlocksUsed(len);
      assert Positions(c, BlocksUsed(len))[0] == Positions(c, BlocksUsed(len))[TWO32];
    }
  }

  /** Byte `k` of the keystream comes from another block position than `p`. */
  ghost predicate ServedElsewhere(c: Core, k: nat, p: Counter)
    requires ValidCore(c)
  {
    exists q: Counter, j: nat :: q != p && j < 64 && Keystream(c, k) == BlockBytes(c.key, q, c.nonce)[j]
  }

  /**
   The new state comes from a block position `p` from which the request was served no byte, up
   to the same bound: what was served says nothing about the block behind the new state.
   */
  lemma RekeyIsFresh(c: Core, len: nat) returns (p: Counter)
    requires ValidCore(c) && len <= 64 * (TWO32 - 1)
    ensures Rekeyed(c, len).key + Rekeyed(c, len).nonce == Block(c.key, p, c.nonce)[..11]
    ensures forall k: nat :: k < len ==> ServedElsewhere(c, k, p)
  {
    p := CounterAt(c, BlocksFor(len));
    var w := Block(c.key, p, c.nonce);
    assert w[..8] + w[8..11] == w[..11];
    forall k: nat | k < len
      ensures ServedElsewhere(c, k, p)
    {
      CountersDiffer(c.counter, k / 64, BlocksFor(len));
      var q: Counter := CounterAt(c, k / 64);
      assert Keystream(c, k) == BlockBytes(c.key, q, c.nonce)[k % 64];
    }
  }

  lemma CountersDiffer(c: Counter, i: nat, j: nat)
    requires i < j < i + TWO32
    ensures (c + i) % TWO32 != (c + j) % TWO32
  {
    var q, q' := (c + i) / TWO32, (c + j) / TWO32;
    assert (c + i) % TWO32 == (c + j) % TWO32 ==> TWO32 * (q' - q) == j - i;
  }

  /** rngc_copy. */
  method Copy(dst: array<Byte>, at: nat, src: array<Byte>, n: nat)
    requires at + n <= dst.Length && n <= src.Length && dst != src
    modifies dst
    ensures forall k :: 0 <= k < dst.Length ==> dst[k] == if at <= k < at + n then src[k - at] else old(dst[k])
  {
    var i := 0;
    while i < n
      invariant 0 <= i <= n
      invariant forall k :: 0 <= k < dst.Length ==> dst[k] == if at <= k < at + i then src[k - at] else old(dst[k])
    {
      dst[at + i] := src[i];
      i := i + 1;
    }
  }

  lemma KeystreamInBlock(c: Core, pos: nat, k: nat)
    requires ValidCore(c) && pos % 64 == 0 && pos <= k < pos + 64
    ensures Keystream(c, k) == BlockBytes(c.key, CounterAt(c, pos / 64), c.nonce)[k - pos]
  {
    assert k / 64 == pos / 64 && k % 64 == k - pos;
  }

  /** The keystream is the blocks from the current counter on, one after the other (section 2.4 of RFC 8439). */
  lemma KeystreamIsBlocks(c: Core, i: nat, j: nat)
    requires ValidCore(c) && j < 64
    ensures Keystream(c, 64 * i + j) == BlockBytes(c.key, (c.counter + i) % TWO32, c.nonce)[j]
  {
    KeystreamInBlock(c, 64 * i, 64 * i + j);
  }

  class Generator {
    const key: array<Word>
    const nonce: array<Word>
    var counter: Counter
    ghost var positions: seq<Counter>   // the counters at which the block function has been run

    ghost predicate Valid()
      reads this
    {
      key.Length == 8 && nonce.Length == 3 && key != nonce
    }

    ghost function State(): (c: Core)
      requires Valid()
      reads this, key, nonce
      ensures ValidCore(c)
    {
      Core(key[..], nonce[..], counter)
    }

    constructor (c: Core)
      requires ValidCore(c)
      ensures Valid() && fresh(key) && fresh(nonce) && State() == c
    {
      key := new Word[8](i requires 0 <= i < 8 => c.key[i]);
      nonce := new Word[3](i requires 0 <= i < 3 => c.nonce[i]);
      counter, positions := c.counter, [];
      new;
      assert key[..] == c.key && nonce[..] == c.nonce;
    }

    /** rngc_drbg_seed. */
    method Seed(m: seq<Byte>)
      requires Valid() && |m| >= SEED_LEN
      modifies key, nonce, this`counter
      ensures State() == Seeded(m)
    {
      var i := 0;
      while i < 8
        invariant 0 <= i <= 8
        invariant forall k :: 0 <= k < i ==> key[k] == MaterialWord(m, k)
      {
        key[i] := Le32(m[i * 4..]);
        i := i + 1;
      }
      i := 0;
      while i < 3
        invariant 0 <= i <= 3
        invariant forall k :: 0 <= k < 8 ==> key[k] == MaterialWord(m, k)
        invariant forall k :: 0 <= k < i ==> nonce[k] == MaterialWord(m, 8 + k)
      {
        nonce[i] := Le32(m[32 + i * 4..]);
        i := i + 1;
      }
      counter := 0;
    }

    /** rngc_drbg_reseed. */
    method Reseed(m: seq<Byte>)
      requires Valid() && |m| >= SEED_LEN
      modifies key, nonce, this`counter
      ensures State() == Reseeded(old(State()), m)
    {
      var i := 0;
      while i < 8
        invariant 0 <= i <= 8
        invariant forall k :: 0 <= k < i ==> key[k] == XorWord(old(key[k]), MaterialWord(m, k))
        invariant forall k :: i <= k < 8 ==> key[k] == old(key[k])
        invariant nonce[..] == old(nonce[..])
      {
        key[i] := XorWord(key[i], Le32(m[i * 4..]));
        i := i + 1;
      }
      i := 0;
      while i < 3
        invariant 0 <= i <= 3
        invariant forall k :: 0 <= k < 8 ==> key[k] == XorWord(old(key[k]), MaterialWord(m, k))
        invariant forall k :: 0 <= k < i ==> nonce[k] == XorWord(old(nonce[k]), MaterialWord(m, 8 + k))
        invariant forall k :: i <= k < 3 ==> nonce[k] == old(nonce[k])
      {
        nonce[i] := XorWord(nonce[i], Le32(m[32 + i * 4..]));
        i := i + 1;
      }
      counter := 0;
    }

    /** The arrays of the generator are not the caller's buffer. */
    ghost predicate Apart(out: array<Byte>)
      reads this
    {
      out as object != key && out as object != nonce
    }

    /** The block at the counter, which moves on. */
    method NextBlock(ghost start: Core, ghost n: nat) returns (block: array<Byte>)
      requires Valid() && ValidCore(start) && State() == start.(counter := CounterAt(start, n))
      modifies this`counter, this`positions
      ensures positions == old(positions) + [CounterAt(start, n)]
      ensures fresh(block) && block[..] == BlockBytes(start.key, CounterAt(start, n), start.nonce)
      ensures State() == start.(counter := CounterAt(start, n + 1))
    {
      block := ComputeBlockBytes(key[..], counter, nonce[..]);
      positions := positions + [counter];
      ModAdd(start.counter + n, 1, TWO32);
      Tick();
    }

    method Tick()
      requires Valid()
      modifies this`counter
      ensures State() == old(State()).(counter := (old(counter) + 1) % TWO32)
    {
      counter := (counter + 1) % TWO32;
    }

    /** One turn of the fill loop: the next block, or as much of it as is wanted. */
    method Serve(out: array<Byte>, pos: nat, len: nat, ghost start: Core) returns (take: nat)
      requires Valid() && Apart(out) && ValidCore(start)
      requires State() == start.(counter := CounterAt(start, pos / 64))
      requires pos % 64 == 0 && pos < len <= out.Length
      modifies out, this`counter, this`positions
      ensures positions == old(positions) + [CounterAt(start, pos / 64)]
      ensures State() == start.(counter := CounterAt(start, pos / 64 + 1))
      ensures take == Min(len - pos, 64)
      ensures forall k :: 0 <= k < out.Length ==>
                out[k] == if pos <= k < pos + take then Keystream(start, k) else old(out[k])
    {
      var block := NextBlock(start, pos / 64);
      take := if len - pos < 64 then len - pos else 64;
      Copy(out, pos, block, take);
      forall k | pos <= k < pos + take
        ensures out[k] == Keystream(start, k)
      {
        KeystreamInBlock(start, pos, k);
        assert out[k] == block[..][k - pos];
      }
    }

    /** rngc_drbg_fill: serve keystream, then re-key from the next block. */
    method Fill(out: array<Byte>, len: nat)
      requires Valid() && Apart(out) && len <= out.Length
      modifies out, key, nonce, this`counter, this`positions
      ensures Valid()
      ensures forall k :: 0 <= k < len ==> out[k] == Keystream(old(State()), k)
      ensures forall k :: len <= k < out.Length ==> out[k] == old(out[k])
      ensures State() == Rekeyed(old(State()), len)
      ensures positions == old(positions) + Positions(old(State()), BlocksUsed(len))
    {
      ghost var start := State();
      OnePosition(start, BlocksFor(len));
      ServeAll(out, len);
      Rekey(start, len);
    }

    /** The loop of rngc_drbg_fill. */
    method ServeAll(out: array<Byte>, len: nat)
      requires Valid() && Apart(out) && len <= out.Length
      modifies out, this`counter, this`positions
      ensures positions == old(positions) + Positions(old(State()), BlocksFor(len))
      ensures forall k :: 0 <= k < out.Length ==> out[k] == if k < len then Keystream(old(State()), k) else old(out[k])
      ensures State() == old(State()).(counter := CounterAt(old(State()), BlocksFor(len)))
    {
      ghost var start := State();
      var pos := 0;
      while pos < len
        invariant 0 <= pos <= len && (pos % 64 == 0 || pos == len)
        invariant State() == start.(counter := CounterAt(start, BlocksFor(pos)))
        invariant positions == old(positions) + Positions(start, BlocksFor(pos))
        invariant forall k :: 0 <= k < out.Length ==> out[k] == if k < pos then Keystream(start, k) else old(out[k])
      {
        BlockCount(pos, len);
        OnePosition(start, BlocksFor(pos));
        var take := Serve(out, pos, len, start);
        pos := pos + take;
      }
    }

    /** The tail of rngc_drbg_fill. */
    method Rekey(ghost start: Core, ghost len: nat)
      requires Valid() && ValidCore(start)
      requires State() == start.(counter := CounterAt(start, BlocksFor(len)))
      modifies key, nonce, this`counter, this`positions
      ensures positions == old(positions) + [CounterAt(start, BlocksFor(len))]
      ensures State() == Rekeyed(start, len)
    {
      var fresh' := NextBlock(start, BlocksFor(len));
      SeedFromBlock(Block(start.key, CounterAt(start, BlocksFor(len)), start.nonce));
      Seed(fresh'[..]);
    }
  }

  lemma BlockCount(pos: nat, len: nat)
    requires pos % 64 == 0 && pos < len
    ensures BlocksFor(pos) == pos / 64
    ensures BlocksFor(pos + Min(len - pos, 64)) == pos / 64 + 1
    ensures len - pos >= 64 ==> (pos + 64) % 64 == 0
  {
  }

  // The three operations on a generator held by value.

  method SeedCore(m: seq<Byte>) returns (r: Core)
    requires |m| == SEED_LEN
    ensures r == Seeded(m)
  {
    var g := new Generator(BLANK);
    g.Seed(m);
    r := Core(g.key[..], g.nonce[..], g.counter);
  }

  method ReseedCore(c: Core, m: seq<Byte>) returns (r: Core)
    requires ValidCore(c) && |m| == SEED_LEN
    ensures r == Reseeded(c, m)
  {
    var g := new Generator(c);
    g.Reseed(m);
    r := Core(g.key[..], g.nonce[..], g.counter);
  }

  method FillCore(c: Core, out: array<Byte>, len: nat) returns (r: Core)
    requires ValidCore(c) && len <= out.Length
    modifies out
    ensures r == Rekeyed(c, len)
    ensures forall k :: 0 <= k < len ==> out[k] == Keystream(c, k)
    ensures forall k :: len <= k < out.Length ==> out[k] == old(out[k])
  {
    var g := new Generator(c);
    g.Fill(out, len);
    r := Core(g.key[..], g.nonce[..], g.counter);
  }
}
