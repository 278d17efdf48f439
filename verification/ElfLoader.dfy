/**
 The ELF64 loader of the UEFI path.  Physical memory is one byte array that holds the
 file image, the destinations and, later, the page tables, so the copy loops really write
 the memory that the headers are read from, and the tables really overwrite what was there.
 */
module ElfLoader {
  import opened Arithmetic
  import opened Bytes
  import opened Memory
  import opened Paging

  const PT_LOAD := 1
  const EHDR_SIZE := 64
  const PHDR_SIZE := 56

  datatype Phdr = Phdr(ptype: nat, offset: nat, vaddr: nat, paddr: nat, filesz: nat, memsz: nat)

  /** 0x7F, "ELF" and the class byte of 64-bit files. */
  predicate GoodMagic(m: seq<Byte>, image: nat)
    requires image + EHDR_SIZE <= |m|
  {
    m[image..image + 5] == [0x7F] + Ascii("ELF") + [2]
  }

  lemma MagicBytes(m: seq<Byte>, image: nat)
    requires image + EHDR_SIZE <= |m|
    ensures GoodMagic(m, image) <==>
              m[image] == 0x7F && m[image + 1] == 0x45 && m[image + 2] == 0x4C && m[image + 3] == 0x46 && m[image + 4] == 2
  {
    var magic, found := [0x7F] + Ascii("ELF") + [2], m[image..image + 5];
    assert magic[0] == 0x7F && magic[1] == 0x45 && magic[2] == 0x4C && magic[3] == 0x46 && magic[4] == 2;
    assert found[0] == m[image] && found[1] == m[image + 1] && found[2] == m[image + 2];
    assert found[3] == m[image + 3] && found[4] == m[image + 4];
  }

  function Entry(m: seq<Byte>, image: nat): nat
    requires image + EHDR_SIZE <= |m|
  {
    Field(m, image + 24, 8)
  }

  function PhdrOffset(m: seq<Byte>, image: nat): nat
    requires image + EHDR_SIZE <= |m|
  {
    Field(m, image + 32, 8)
  }

  function PhdrCount(m: seq<Byte>, image: nat): (n: nat)
    requires image + EHDR_SIZE <= |m|
    ensures n < TWO16
  {
    WordSizes();
    Field(m, image + 56, 2)
  }

  function PhdrAt(m: seq<Byte>, a: nat): Phdr
    requires a + PHDR_SIZE <= |m|
  {
    Phdr(Field(m, a, 4), Field(m, a + 8, 8), Field(m, a + 16, 8), Field(m, a + 24, 8), Field(m, a + 32, 8), Field(m, a + 40, 8))
  }

  // ---------------------------------------------------------------- the file format

  /** The `n` octets of `v` stand at address `a`, least significant first. */
  predicate StandsAt(m: seq<Byte>, a: nat, n: nat, v: nat) {
    a + n <= |m| && v < Pow256(n) && forall i :: 0 <= i < n ==> m[a + i] == Octet(v, i)
  }

  /** A program header as the ELF64 format lays it out. */
  predicate PhdrStands(m: seq<Byte>, a: nat, ph: Phdr) {
    && StandsAt(m, a + 0, 4, ph.ptype) && StandsAt(m, a + 8, 8, ph.offset) && StandsAt(m, a + 16, 8, ph.vaddr)
    && StandsAt(m, a + 24, 8, ph.paddr) && StandsAt(m, a + 32, 8, ph.filesz) && StandsAt(m, a + 40, 8, ph.memsz)
  }

  lemma FieldStands(m: seq<Byte>, a: nat, n: nat, v: nat)
    requires StandsAt(m, a, n, v)
    ensures Field(m, a, n) == v
  {
    FieldOfOctets(m, a, n, v);
    DivModUnique(v, Pow256(n), 0, v);
  }

  /** The loader reads a header back field by field. */
  lemma PhdrLayout(m: seq<Byte>, a: nat, ph: Phdr)
    requires PhdrStands(m, a, ph) && a + 56 <= |m|
    ensures PhdrAt(m, a) == ph
  {
    FieldStands(m, a, 4, ph.ptype);
    FieldStands(m, a + 8, 8, ph.offset);
    FieldStands(m, a + 16, 8, ph.vaddr);
    FieldStands(m, a + 24, 8, ph.paddr);
    FieldStands(m, a + 32, 8, ph.filesz);
    FieldStands(m, a + 40, 8, ph.memsz);
  }

  /**
   An ELF64 file of `len` bytes at `image`: magic, e_entry at 24, e_phoff at 32, e_phnum at 56,
   and the program headers `phs`, 56 bytes each, from e_phoff on.
   */
  predicate ElfFile(m: seq<Byte>, image: nat, len: nat, entry: nat, phoff: nat, phs: seq<Phdr>) {
    && 64 <= len && image + len <= |m| <= TWO64 && phoff + 56 * |phs| <= len
    && m[image..image + 5] == [0x7F] + Ascii("ELF") + [2]
    && StandsAt(m, image + 24, 8, entry) && StandsAt(m, image + 32, 8, phoff) && StandsAt(m, image + 56, 2, |phs|)
    && forall i :: 0 <= i < |phs| ==> PhdrStands(m, image + phoff + 56 * i, phs[i])
  }

  /** The loader finds the entry point and the headers of every ELF64 file. */
  lemma FileLayout(m: seq<Byte>, image: nat, len: nat, entry: nat, phoff: nat, phs: seq<Phdr>)
    requires ElfFile(m, image, len, entry, phoff, phs)
    ensures GoodMagic(m, image) && Entry(m, image) == entry
    ensures HeadersInside(m, image, len) && Headers(m, image, len) == phs
  {
    FieldStands(m, image + 24, 8, entry);
    FieldStands(m, image + 32, 8, phoff);
    FieldStands(m, image + 56, 2, |phs|);
    forall i | 0 <= i < |phs|
      ensures Headers(m, image, len)[i] == phs[i]
    {
      assert PhdrStands(m, image + phoff + 56 * i, phs[i]);
      PhdrLayout(m, HeaderAddr(m, image, i), phs[i]);
    }
  }

  /** `p_paddr - KERNEL_VMA` in 64-bit arithmetic. */
  function Dest(ph: Phdr): nat {
    (ph.paddr - KERNEL_VMA) % TWO64
  }

  /** One past the last byte the loader writes for a segment. */
  function Extent(ph: Phdr): nat {
    Dest(ph) + if ph.memsz > ph.filesz then ph.memsz else ph.filesz
  }

  /** Where the loader finds header `i`. */
  function HeaderAddr(m: seq<Byte>, image: nat, i: nat): nat
    requires image + EHDR_SIZE <= |m|
  {
    image + PhdrOffset(m, image) + PHDR_SIZE * i
  }

  predicate HeadersInside(m: seq<Byte>, image: nat, len: nat) {
    EHDR_SIZE <= len && image + len <= |m| <= TWO64 && HeaderAddr(m, image, PhdrCount(m, image)) <= image + len
  }

  function Headers(m: seq<Byte>, image: nat, len: nat): (phs: seq<Phdr>)
    requires HeadersInside(m, image, len)
    ensures |phs| == PhdrCount(m, image)
  {
    seq(PhdrCount(m, image), i requires 0 <= i < PhdrCount(m, image) => PhdrAt(m, HeaderAddr(m, image, i)))
  }

  /** A segment whose file bytes lie in the image and whose destination is memory outside it. */
  predicate Placed(ph: Phdr, image: nat, len: nat, memory: nat) {
    ph.ptype == PT_LOAD ==>
      && ph.offset + ph.filesz <= len
      && Extent(ph) <= memory
      && (Extent(ph) <= image || image + len <= Dest(ph))
  }

  predicate AllPlaced(phs: seq<Phdr>, image: nat, len: nat, memory: nat) {
    forall i :: 0 <= i < |phs| ==> Placed(phs[i], image, len, memory)
  }

  /** The image of `len` bytes at `image` can be loaded without leaving memory or touching itself. */
  predicate Loadable(m: seq<Byte>, image: nat, len: nat) {
    HeadersInside(m, image, len) && AllPlaced(Headers(m, image, len), image, len, |m|)
  }

  /** The byte that address `a` holds once `ph` has been loaded over a memory with `before` there. */
  function LoadedByte(m: seq<Byte>, image: nat, ph: Phdr, a: nat, before: Byte): Byte
    requires ph.ptype == PT_LOAD ==> image + ph.offset + ph.filesz <= |m|
  {
    if ph.ptype != PT_LOAD then before
    else if Dest(ph) <= a < Dest(ph) + ph.filesz then m[image + ph.offset + (a - Dest(ph))]
    else if Dest(ph) + ph.filesz <= a < Dest(ph) + ph.memsz then 0
    else before
  }

  /** Memory after the first `n` headers: the last segment covering an address wins. */
  function After(m: seq<Byte>, image: nat, len: nat, phs: seq<Phdr>, n: nat, a: nat): Byte
    requires image + len <= |m| && AllPlaced(phs, image, len, |m|) && n <= |phs| && a < |m|
    decreases n, m
  {
    if n == 0 then m[a]
    else LoadedByte(m, image, phs[n - 1], a, After(m, image, len, phs, n - 1, a))
  }

  // ---------------------------------------------------------------- what the loop does to memory

  /** Where octet `i` of a forward copy comes from: an overlapping copy repeats what it has copied. */
  function CopySource(dst: nat, src: nat, i: nat): nat {
    if src < dst then src + i % (dst - src) else src + i
  }

  lemma SourceInRange(dst: nat, src: nat, i: nat)
    ensures src <= CopySource(dst, src, i) <= src + i
  {
  }

  function Copied(m: seq<Byte>, dst: nat, src: nat, n: nat): (r: seq<Byte>)
    requires n > 0 ==> dst + n <= |m| && src + n <= |m|
    ensures |r| == |m|
  {
    seq(|m|, a requires 0 <= a < |m| =>
      if dst <= a < dst + n then (SourceInRange(dst, src, a - dst); m[CopySource(dst, src, a - dst)]) else m[a])
  }

  function Set(m: seq<Byte>, dst: nat, v: Byte, n: nat): (r: seq<Byte>)
    requires dst + n <= |m|
    ensures |r| == |m|
  {
    seq(|m|, a requires 0 <= a < |m| => if dst <= a < dst + n then v else m[a])
  }

  /** One step of an overlapping copy reads an octet that has been copied already. */
  lemma Repeats(dst: nat, src: nat, i: nat)
    requires src < dst <= src + i
    ensures CopySource(dst, src, src + i - dst) == CopySource(dst, src, i)
  {
    var d := dst - src;
    ModAdd(i - d, d, d);
    DivModUnique(i, d, (i - d) / d + 1, (i - d) % d);
  }

  method MemCopy(mem: array<Byte>, dst: nat, src: nat, n: nat)
    requires n > 0 ==> dst + n <= mem.Length && src + n <= mem.Length
    modifies mem
    ensures mem[..] == Copied(old(mem[..]), dst, src, n)
  {
    ghost var m := mem[..];
    var i := 0;
    while i < n
      invariant 0 <= i <= n
      invariant mem[..] == Copied(m, dst, src, i)
    {
      ghost var before := mem[..];
      if src < dst <= src + i {
        Repeats(dst, src, i);
      } else if src < dst {
        DivModUnique(i, dst - src, 0, i);
      }
      SourceInRange(dst, src, i);
      assert before[src + i] == m[CopySource(dst, src, i)];
      mem[dst + i] := mem[src + i];
      assert mem[..] == before[dst + i := m[CopySource(dst, src, i)]];
      i := i + 1;
    }
  }

  method MemSet(mem: array<Byte>, dst: nat, v: Byte, n: nat)
    requires dst + n <= mem.Length
    modifies mem
    ensures mem[..] == Set(old(mem[..]), dst, v, n)
  {
    var i := 0;
    while i < n
      invariant 0 <= i <= n
      invariant mem[..] == Set(old(mem[..]), dst, v, i)
    {
      mem[dst + i] := v;
      i := i + 1;
    }
  }

  // ---------------------------------------------------------------- the loader

  // Addresses are computed in 64-bit arithmetic.
  function Source(image: nat, ph: Phdr): nat {
    (image + ph.offset) % TWO64
  }

  function ZeroStart(ph: Phdr): nat {
    (Dest(ph) + ph.filesz) % TWO64
  }

  /** The copies and stores for a header stay in a memory of `memory` bytes. */
  predicate InMemory(ph: Phdr, image: nat, memory: nat) {
    ph.ptype == PT_LOAD ==>
      && (ph.filesz > 0 ==> Dest(ph) + ph.filesz <= memory && Source(image, ph) + ph.filesz <= memory)
      && (ph.memsz > ph.filesz ==> ZeroStart(ph) + (ph.memsz - ph.filesz) <= memory)
  }

  /** Memory after one header. */
  function LoadOne(m: seq<Byte>, image: nat, ph: Phdr): (r: seq<Byte>)
    requires InMemory(ph, image, |m|)
    ensures |r| == |m|
  {
    if ph.ptype != PT_LOAD then m else
    var c := Copied(m, Dest(ph), Source(image, ph), ph.filesz);
    if ph.memsz > ph.filesz then Set(c, ZeroStart(ph), 0, ph.memsz - ph.filesz) else c
  }

  /**
   Memory after headers `i` and up, None if the loader would leave memory.  The header table
   is located once; the header count and the headers are read from memory as it then is.
   */
  function LoadFrom(m: seq<Byte>, image: nat, table: nat, i: nat): (r: Option<seq<Byte>>)
    requires image + EHDR_SIZE <= |m|
    ensures r.Some? ==> |r.value| == |m|
    decreases TWO16 - i, m
  {
    if i >= PhdrCount(m, image) then Some(m) else
    var a := (table + PHDR_SIZE * i) % TWO64;
    if a + PHDR_SIZE > |m| || !InMemory(PhdrAt(m, a), image, |m|) then None
    else LoadFrom(LoadOne(m, image, PhdrAt(m, a)), image, table, i + 1)
  }

  /** `base + e_phoff`. */
  function TableAddr(m: seq<Byte>, image: nat): nat
    requires image + EHDR_SIZE <= |m|
  {
    (image + PhdrOffset(m, image)) % TWO64
  }

  /** Memory after the whole loop. */
  function LoadAll(m: seq<Byte>, image: nat): (r: Option<seq<Byte>>)
    requires image + EHDR_SIZE <= |m|
    ensures r.Some? ==> |r.value| == |m|
  {
    LoadFrom(m, image, TableAddr(m, image), 0)
  }

  /** One turn of the loop over program headers. */
  method LoadSegment(mem: array<Byte>, image: nat, ph: Phdr)
    requires InMemory(ph, image, mem.Length)
    modifies mem
    ensures mem[..] == LoadOne(old(mem[..]), image, ph)
  {
    if ph.ptype != PT_LOAD {
      return;
    }
    var phys := (ph.paddr - KERNEL_VMA) % TWO64;
    MemCopy(mem, phys, (image + ph.offset) % TWO64, ph.filesz);
    if ph.memsz > ph.filesz {
      MemSet(mem, (phys + ph.filesz) % TWO64, 0, ph.memsz - ph.filesz);
    }
  }

  /** Mid-loop: going on from `m` with header `i` ends in memory `goal`. */
  ghost predicate LoadAt(m: seq<Byte>, image: nat, table: nat, i: nat, goal: seq<Byte>) {
    image + EHDR_SIZE <= |m| && LoadFrom(m, image, table, i) == Some(goal)
  }

  lemma {:induction false} LoadTurn(m: seq<Byte>, image: nat, table: nat, i: nat, goal: seq<Byte>)
    requires LoadAt(m, image, table, i, goal)
    ensures i >= PhdrCount(m, image) ==> m == goal
    ensures i < PhdrCount(m, image) ==>
              var a := (table + PHDR_SIZE * i) % TWO64;
              && a + PHDR_SIZE <= |m| && InMemory(PhdrAt(m, a), image, |m|)
              && LoadAt(LoadOne(m, image, PhdrAt(m, a)), image, table, i + 1, goal)
  {
  }

  /** efi_elf_load: returns the entry point, 0 for a file that is not ELF64. */
  method Load(mem: array<Byte>, image: nat) returns (entry: nat)
    requires image + EHDR_SIZE <= mem.Length
    requires GoodMagic(mem[..], image) ==> LoadAll(mem[..], image).Some?
    modifies mem
    ensures !GoodMagic(old(mem[..]), image) ==> entry == 0 && mem[..] == old(mem[..])
    ensures GoodMagic(old(mem[..]), image) ==>
              LoadAll(old(mem[..]), image) == Some(mem[..]) && entry == Entry(mem[..], image)
  {
    MagicBytes(mem[..], image);
    if mem[image] != 0x7F || mem[image + 1] != 0x45 || mem[image + 2] != 0x4C || mem[image + 3] != 0x46
       || mem[image + 4] != 2 {
      return 0;
    }
    ghost var goal := LoadAll(mem[..], image).value;
    LoadHeaders(mem, image, TableAddr(mem[..], image), goal);
    return Entry(mem[..], image);
  }

  /** The loop over program headers. */
  method LoadHeaders(mem: array<Byte>, image: nat, table: nat, ghost goal: seq<Byte>)
    requires LoadAt(mem[..], image, table, 0, goal)
    modifies mem
    ensures mem[..] == goal
  {
    var i := 0;
    LoadTurn(mem[..], image, table, i, goal);
    while i < PhdrCount(mem[..], image)
      invariant 0 <= i
      invariant LoadAt(mem[..], image, table, i, goal)
      decreases TWO16 - i
    {
      LoadTurn(mem[..], image, table, i, goal);
      var ph := PhdrAt(mem[..], (table + PHDR_SIZE * i) % TWO64);
      LoadSegment(mem, image, ph);
      i := i + 1;
    }
    LoadTurn(mem[..], image, table, i, goal);
  }

  // ---------------------------------------------------------------- well-placed images

  /** The image at `image` is the same in both memories. */
  predicate Intact(m: seq<Byte>, m': seq<Byte>, image: nat, len: nat) {
    image + len <= |m| == |m'| && forall k {:trigger m'[k]} :: image <= k < image + len ==> m'[k] == m[k]
  }

  lemma SameHeader(m: seq<Byte>, m': seq<Byte>, image: nat, len: nat, a: nat)
    requires Intact(m, m', image, len) && image <= a && a + PHDR_SIZE <= image + len
    ensures PhdrAt(m, a) == PhdrAt(m', a)
  {
    SameField(m, m', a, 4);
    SameField(m, m', a + 8, 8);
    SameField(m, m', a + 16, 8);
    SameField(m, m', a + 24, 8);
    SameField(m, m', a + 32, 8);
    SameField(m, m', a + 40, 8);
  }

  /** While the image is intact the loader reads the headers it started with. */
  lemma HeaderUnchanged(m: seq<Byte>, m': seq<Byte>, image: nat, len: nat, i: nat)
    requires HeadersInside(m, image, len) && Intact(m, m', image, len) && i < PhdrCount(m, image)
    ensures var a := (TableAddr(m, image) + PHDR_SIZE * i) % TWO64;
            a + PHDR_SIZE <= |m'| && PhdrAt(m', a) == Headers(m, image, len)[i]
  {
    var a := HeaderAddr(m, image, i);
    SmallModulus(image + PhdrOffset(m, image));
    SmallModulus(a);
    SameHeader(m, m', image, len, a);
  }

  lemma SmallModulus(a: nat)
    requires a < TWO64
    ensures a % TWO64 == a
  {
  }

  /** Memory `cur` is `m` with the first `i` headers loaded, the image still intact. */
  ghost predicate Progress(cur: seq<Byte>, m: seq<Byte>, image: nat, len: nat, phs: seq<Phdr>, i: nat)
    requires image + len <= |m| && AllPlaced(phs, image, len, |m|) && i <= |phs|
  {
    Intact(m, cur, image, len) && forall a :: 0 <= a < |m| ==> cur[a] == After(m, image, len, phs, i, a)
  }

  /** A well-placed segment is loaded where and from where the file says. */
  lemma PlacedAddresses(image: nat, len: nat, ph: Phdr, memory: nat)
    requires image + len <= memory <= TWO64 && Placed(ph, image, len, memory) && ph.ptype == PT_LOAD
    ensures InMemory(ph, image, memory)
    ensures ph.filesz > 0 ==> Source(image, ph) == image + ph.offset
    ensures ph.memsz > ph.filesz ==> ZeroStart(ph) == Dest(ph) + ph.filesz
  {
    if ph.filesz > 0 {
      SmallModulus(image + ph.offset);
    }
    if ph.memsz > ph.filesz {
      SmallModulus(Dest(ph) + ph.filesz);
    }
  }

  /** Source and destination of a well-placed segment do not overlap. */
  lemma PlacedSource(image: nat, len: nat, ph: Phdr, i: nat)
    requires Placed(ph, image, len, image + len + Extent(ph)) && ph.ptype == PT_LOAD && i < ph.filesz
    ensures CopySource(Dest(ph), image + ph.offset, i) == image + ph.offset + i
  {
    var src := image + ph.offset;
    if src < Dest(ph) {
      DivModUnique(i, Dest(ph) - src, 0, i);
    }
  }

  lemma LoadedAt(cur: seq<Byte>, image: nat, len: nat, ph: Phdr, a: nat)
    requires image + len <= |cur| <= TWO64 && Placed(ph, image, len, |cur|) && a < |cur|
    ensures InMemory(ph, image, |cur|) && LoadOne(cur, image, ph)[a] == LoadedByte(cur, image, ph, a, cur[a])
  {
    if ph.ptype == PT_LOAD {
      PlacedAddresses(image, len, ph, |cur|);
      if Dest(ph) <= a < Dest(ph) + ph.filesz {
        PlacedSource(image, len, ph, a - Dest(ph));
      }
    }
  }

  lemma SameBytes(m: seq<Byte>, m': seq<Byte>, image: nat, len: nat, ph: Phdr, a: nat, before: Byte)
    requires Intact(m, m', image, len) && (ph.ptype == PT_LOAD ==> ph.offset + ph.filesz <= len)
    ensures LoadedByte(m, image, ph, a, before) == LoadedByte(m', image, ph, a, before)
  {
  }

  /** One more header. */
  lemma LoadsOne(cur: seq<Byte>, m: seq<Byte>, image: nat, len: nat, phs: seq<Phdr>, i: nat)
    requires image + len <= |m| <= TWO64 && AllPlaced(phs, image, len, |m|) && i < |phs|
    requires Progress(cur, m, image, len, phs, i)
    ensures InMemory(phs[i], image, |cur|) && Progress(LoadOne(cur, image, phs[i]), m, image, len, phs, i + 1)
  {
    var ph := phs[i];
    assert Placed(ph, image, len, |m|);
    if ph.ptype == PT_LOAD {
      PlacedAddresses(image, len, ph, |m|);
    }
    forall a | 0 <= a < |m|
      ensures LoadOne(cur, image, ph)[a] == After(m, image, len, phs, i + 1, a)
      ensures image <= a < image + len ==> LoadOne(cur, image, ph)[a] == m[a]
    {
      LoadedAt(cur, image, len, ph, a);
      SameBytes(m, cur, image, len, ph, a, cur[a]);
    }
  }

  lemma {:induction false} LoadUnfolds(cur: seq<Byte>, image: nat, table: nat, i: nat, ph: Phdr)
    requires image + EHDR_SIZE <= |cur| && i < PhdrCount(cur, image) && InMemory(ph, image, |cur|)
    requires var a := (table + PHDR_SIZE * i) % TWO64; a + PHDR_SIZE <= |cur| && PhdrAt(cur, a) == ph
    ensures LoadFrom(cur, image, table, i) == LoadFrom(LoadOne(cur, image, ph), image, table, i + 1)
  {
  }

  /** The loader has loaded `i` headers of a well-placed image. */
  ghost predicate OnTrack(cur: seq<Byte>, m: seq<Byte>, image: nat, len: nat, i: nat) {
    Loadable(m, image, len) && i <= PhdrCount(m, image) && Progress(cur, m, image, len, Headers(m, image, len), i)
  }

  /** One turn of the loop on a well-placed image. */
  lemma {:induction false} LoadsNext(cur: seq<Byte>, m: seq<Byte>, image: nat, len: nat, i: nat) returns (next: seq<Byte>)
    requires OnTrack(cur, m, image, len, i) && i < PhdrCount(m, image)
    ensures OnTrack(next, m, image, len, i + 1) && image + EHDR_SIZE <= |cur| == |next|
    ensures LoadFrom(cur, image, TableAddr(m, image), i) == LoadFrom(next, image, TableAddr(m, image), i + 1)
  {
    var phs := Headers(m, image, len);
    SameField(m, cur, image + 56, 2);
    HeaderUnchanged(m, cur, image, len, i);
    LoadsOne(cur, m, image, len, phs, i);
    LoadUnfolds(cur, image, TableAddr(m, image), i, phs[i]);
    next := LoadOne(cur, image, phs[i]);
  }

  /** The loader at header `i` of a well-placed image will leave `loaded`. */
  ghost predicate WillLeave(cur: seq<Byte>, m: seq<Byte>, image: nat, len: nat, i: nat, loaded: seq<Byte>) {
    && image + EHDR_SIZE <= |m| && LoadAt(cur, image, TableAddr(m, image), i, loaded)
    && OnTrack(loaded, m, image, len, PhdrCount(m, image))
  }

  lemma {:induction false} LeavesToo(cur: seq<Byte>, next: seq<Byte>, m: seq<Byte>, image: nat, len: nat, i: nat, loaded: seq<Byte>)
    requires image + EHDR_SIZE <= |cur| && WillLeave(next, m, image, len, i + 1, loaded)
    requires LoadFrom(cur, image, TableAddr(m, image), i) == LoadFrom(next, image, TableAddr(m, image), i + 1)
    ensures WillLeave(cur, m, image, len, i, loaded)
  {
  }

  /** A well-placed image is loaded without leaving memory, header by header over the original. */
  lemma {:induction false} Loads(cur: seq<Byte>, m: seq<Byte>, image: nat, len: nat, i: nat) returns (loaded: seq<Byte>)
    requires image + EHDR_SIZE <= |m| && i <= PhdrCount(m, image) && OnTrack(cur, m, image, len, i)
    ensures WillLeave(cur, m, image, len, i, loaded)
    decreases PhdrCount(m, image) - i
  {
    if i < PhdrCount(m, image) {
      var next := LoadsNext(cur, m, image, len, i);
      loaded := Loads(next, m, image, len, i + 1);
      LeavesToo(cur, next, m, image, len, i, loaded);
    } else {
      LoadsEnd(cur, m, image, len);
      loaded := cur;
    }
  }

  lemma {:induction false} LoadsEnd(cur: seq<Byte>, m: seq<Byte>, image: nat, len: nat)
    requires image + EHDR_SIZE <= |m| && OnTrack(cur, m, image, len, PhdrCount(m, image))
    ensures WillLeave(cur, m, image, len, PhdrCount(m, image), cur)
  {
    SameField(m, cur, image + 56, 2);
  }

  /** `loaded` is what memory `m` becomes when the well-placed image in it is loaded. */
  ghost predicate LoadedFrom(loaded: seq<Byte>, m: seq<Byte>, image: nat, len: nat)
    requires Loadable(m, image, len)
  {
    Progress(loaded, m, image, len, Headers(m, image, len), PhdrCount(m, image))
  }

  /** What efi_elf_load leaves for a well-placed image: all segments, and the file's own entry point. */
  lemma WellPlacedLoads(m: seq<Byte>, image: nat, len: nat)
    requires Loadable(m, image, len)
    ensures LoadAll(m, image).Some? && LoadedFrom(LoadAll(m, image).value, m, image, len)
    ensures Entry(LoadAll(m, image).value, image) == Entry(m, image)
  {
    var loaded := Loads(m, m, image, len, 0);
    SameField(m, loaded, image + 24, 8);
  }

  // ---------------------------------------------------------------- what the kernel sees

  /** A segment linked at its load address inside the kernel window. */
  predicate KernelSegment(ph: Phdr) {
    ph.ptype == PT_LOAD ==>
      ph.paddr == ph.vaddr && ph.filesz <= ph.memsz && KERNEL_VMA <= ph.vaddr && ph.vaddr + ph.memsz <= KERNEL_VMA + WINDOW
  }

  /** A segment whose physical address lies in the top of the address space, from the kernel base on. */
  predicate Segment(ph: Phdr) {
    ph.ptype == PT_LOAD ==> ph.filesz <= ph.memsz && KERNEL_VMA <= ph.paddr && ph.paddr + ph.memsz <= TWO64
  }

  predicate Disjoint(a: Phdr, b: Phdr) {
    a.ptype == PT_LOAD && b.ptype == PT_LOAD ==>
      a.paddr + a.memsz <= b.paddr || b.paddr + b.memsz <= a.paddr || a.memsz == 0 || b.memsz == 0
  }

  /** No two segments overlap. */
  predicate Segments(phs: seq<Phdr>) {
    && (forall i :: 0 <= i < |phs| ==> Segment(phs[i]))
    && (forall i, j :: 0 <= i < j < |phs| ==> Disjoint(phs[i], phs[j]))
  }

  /** A kernel: every segment in the window, no two overlapping. */
  predicate KernelSegments(phs: seq<Phdr>) {
    Segments(phs) && forall i :: 0 <= i < |phs| ==> KernelSegment(phs[i])
  }

  /** Later segments leave the bytes of segment `i` alone. */
  lemma {:induction false} SegmentSurvives(m: seq<Byte>, image: nat, len: nat, phs: seq<Phdr>, i: nat, n: nat, k: nat)
    requires image + len <= |m| && AllPlaced(phs, image, len, |m|) && Segments(phs) && i < n <= |phs|
    requires phs[i].ptype == PT_LOAD && k < phs[i].memsz
    ensures Dest(phs[i]) == phs[i].paddr - KERNEL_VMA
    ensures Dest(phs[i]) + k < |m|
    ensures After(m, image, len, phs, n, Dest(phs[i]) + k)
         == SegmentByte(m, image, phs[i], k)
    decreases n
  {
    assert Placed(phs[i], image, len, |m|) && Segment(phs[i]);
    LoadAddress(phs[i]);
    var before := After(m, image, len, phs, n - 1, Dest(phs[i]) + k);
    if n > i + 1 {
      SegmentSurvives(m, image, len, phs, i, n - 1, k);
      assert Placed(phs[n - 1], image, len, |m|) && Segment(phs[n - 1]) && Disjoint(phs[i], phs[n - 1]);
      OtherSegment(m, image, phs[i], phs[n - 1], k, before);
    } else {
      OwnSegment(m, image, phs[i], k, before);
    }
  }

  lemma LoadAddress(ph: Phdr)
    requires Segment(ph) && ph.ptype == PT_LOAD
    ensures Dest(ph) == ph.paddr - KERNEL_VMA && Extent(ph) == Dest(ph) + ph.memsz
  {
  }

  lemma OtherSegment(m: seq<Byte>, image: nat, a: Phdr, b: Phdr, k: nat, before: Byte)
    requires Segment(a) && Segment(b) && Disjoint(a, b) && a.ptype == PT_LOAD && k < a.memsz
    requires b.ptype == PT_LOAD ==> image + b.offset + b.filesz <= |m|
    ensures LoadedByte(m, image, b, Dest(a) + k, before) == before
  {
    LoadAddress(a);
    if b.ptype == PT_LOAD {
      LoadAddress(b);
    }
  }

  lemma OwnSegment(m: seq<Byte>, image: nat, ph: Phdr, k: nat, before: Byte)
    requires Segment(ph) && ph.ptype == PT_LOAD && k < ph.memsz && image + ph.offset + ph.filesz <= |m|
    ensures LoadedByte(m, image, ph, Dest(ph) + k, before) == SegmentByte(m, image, ph, k)
  {
  }

  /** Byte `k` of a segment as the file prescribes it: file bytes, then zeros. */
  function SegmentByte(m: seq<Byte>, image: nat, ph: Phdr, k: nat): Byte {
    if k < ph.filesz && image + ph.offset + k < |m| then m[image + ph.offset + k] else 0
  }

  /** After loading, the bytes of each segment are at its physical address less the kernel base. */
  lemma SegmentLoaded(m: seq<Byte>, image: nat, len: nat, phs: seq<Phdr>, loaded: seq<Byte>, i: nat, k: nat)
    requires image + len <= |m| && AllPlaced(phs, image, len, |m|) && Segments(phs) && i < |phs|
    requires Progress(loaded, m, image, len, phs, |phs|)
    requires phs[i].ptype == PT_LOAD && k < phs[i].memsz
    ensures 0 <= phs[i].paddr - KERNEL_VMA + k < |loaded|
    ensures loaded[phs[i].paddr - KERNEL_VMA + k] == SegmentByte(m, image, phs[i], k)
    ensures Dest(phs[i]) == phs[i].paddr - KERNEL_VMA
  {
    SegmentSurvives(m, image, len, phs, i, |phs|, k);
  }

  /** In a kernel that is the link address less the kernel base. */
  lemma SegmentInPlace(m: seq<Byte>, image: nat, len: nat, phs: seq<Phdr>, loaded: seq<Byte>, i: nat, k: nat)
    requires image + len <= |m| && AllPlaced(phs, image, len, |m|) && KernelSegments(phs) && i < |phs|
    requires Progress(loaded, m, image, len, phs, |phs|)
    requires phs[i].ptype == PT_LOAD && k < phs[i].memsz
    ensures 0 <= phs[i].vaddr - KERNEL_VMA + k < |loaded|
    ensures loaded[phs[i].vaddr - KERNEL_VMA + k] == SegmentByte(m, image, phs[i], k)
    ensures KernelSegment(phs[i]) && Dest(phs[i]) == phs[i].vaddr - KERNEL_VMA
  {
    assert KernelSegment(phs[i]);
    SegmentLoaded(m, image, len, phs, loaded, i, k);
  }

  lemma WindowIsMapped(m: seq<Byte>, base: nat, ph: Phdr, k: nat)
    requires ValidBase(base) && Built(m, base)
    requires KernelSegment(ph) && ph.ptype == PT_LOAD && k < ph.memsz
    ensures Translate(m, base, ph.vaddr + k) == Mapped(ph.vaddr - KERNEL_VMA + k, true)
  {
    WalkIsPromised(m, base, ph.vaddr + k);
  }

  // ---------------------------------------------------------------- loading, then building the tables

  /** The byte of the finished page tables at offset `o` of their pages. */
  function TableByte(base: nat, o: nat): Byte
    requires ValidBase(base) && o < REGION
  {
    Octet(Paging.Entry(base, o / 8 / 512, o / 8 % 512), o % 8)
  }

  lemma BuiltByte(m: seq<Byte>, base: nat, o: nat)
    requires ValidBase(base) && Built(m, base) && o < REGION
    ensures m[base + o] == TableByte(base, o)
  {
    var k := o / 8;
    assert Tables(m, base)[k] == Paging.Entry(base, k / 512, k % 512);
    OctetOfField(m, base + 8 * k, 8, o % 8);
    assert base + 8 * k + o % 8 == base + o;
  }

  predicate InTables(base: nat, a: int) {
    base <= a < base + REGION
  }

  /** The kernel's access to byte `k` of a segment reaches the byte's load address. */
  ghost predicate Reaches(final: seq<Byte>, base: nat, ph: Phdr, k: nat) {
    var a := ph.vaddr - KERNEL_VMA + k;
    0 <= a < |final| && Translate(final, base, ph.vaddr + k) == Mapped(a, true)
  }

  /** There lies the prescribed byte, unless the tables were put on top of it. */
  ghost predicate Holds(final: seq<Byte>, base: nat, m: seq<Byte>, image: nat, ph: Phdr, k: nat)
    requires ValidBase(base)
  {
    var a := ph.vaddr - KERNEL_VMA + k;
    && 0 <= a < |final|
    && final[a] == (if InTables(base, a) then TableByte(base, a - base) else SegmentByte(m, image, ph, k))
    && (ClearOf(ph, base) ==> !InTables(base, a))
  }

  /** No byte of a segment lies where the tables go. */
  predicate ClearOf(ph: Phdr, base: nat) {
    base + REGION <= Dest(ph) || Extent(ph) <= base
  }

  lemma SegmentHolds(m: seq<Byte>, image: nat, len: nat, phs: seq<Phdr>, loaded: seq<Byte>, final: seq<Byte>,
                     base: nat, i: nat, k: nat)
    requires image + len <= |m| && AllPlaced(phs, image, len, |m|) && KernelSegments(phs)
    requires Progress(loaded, m, image, len, phs, |phs|)
    requires ValidBase(base) && OnlyTables(loaded, final, base) && Built(final, base)
    requires i < |phs| && phs[i].ptype == PT_LOAD && k < phs[i].memsz
    ensures Holds(final, base, m, image, phs[i], k) && KernelSegment(phs[i])
  {
    SegmentInPlace(m, image, len, phs, loaded, i, k);
    ByteAfterTables(loaded, final, base, phs[i].vaddr - KERNEL_VMA + k);
    ClearByte(phs[i], base, k);
  }

  lemma SegmentReaches(final: seq<Byte>, base: nat, ph: Phdr, k: nat)
    requires ValidBase(base) && Built(final, base)
    requires KernelSegment(ph) && ph.ptype == PT_LOAD && k < ph.memsz && ph.vaddr - KERNEL_VMA + k < |final|
    ensures Reaches(final, base, ph, k)
  {
    WindowIsMapped(final, base, ph, k);
  }

  /**
   Loading and then building the tables, in one memory: `loaded` is memory `m` after the
   loader, `final` after efi_setup_hhdm_paging.
   */
  lemma KernelReads(m: seq<Byte>, image: nat, len: nat, phs: seq<Phdr>, loaded: seq<Byte>, final: seq<Byte>,
                    base: nat, i: nat, k: nat)
    requires image + len <= |m| && AllPlaced(phs, image, len, |m|) && KernelSegments(phs)
    requires Progress(loaded, m, image, len, phs, |phs|)
    requires ValidBase(base) && OnlyTables(loaded, final, base) && Built(final, base)
    requires i < |phs| && phs[i].ptype == PT_LOAD && k < phs[i].memsz
    ensures Reaches(final, base, phs[i], k) && Holds(final, base, m, image, phs[i], k)
  {
    SegmentHolds(m, image, len, phs, loaded, final, base, i, k);
    SegmentReaches(final, base, phs[i], k);
  }

  lemma ByteAfterTables(loaded: seq<Byte>, final: seq<Byte>, base: nat, a: nat)
    requires ValidBase(base) && OnlyTables(loaded, final, base) && Built(final, base) && a < |loaded|
    ensures final[a] == if InTables(base, a) then TableByte(base, a - base) else loaded[a]
  {
    if InTables(base, a) {
      BuiltByte(final, base, a - base);
    }
  }

  lemma ClearByte(ph: Phdr, base: nat, k: nat)
    requires k < ph.memsz
    ensures ClearOf(ph, base) ==> !InTables(base, Dest(ph) + k)
  {
  }

  /** A segment clear of the tables is read back as the file prescribes it, whole. */
  lemma KernelSeesItsImage(m: seq<Byte>, image: nat, len: nat, phs: seq<Phdr>, loaded: seq<Byte>, final: seq<Byte>,
                           base: nat, i: nat, k: nat)
    requires image + len <= |m| && AllPlaced(phs, image, len, |m|) && KernelSegments(phs)
    requires Progress(loaded, m, image, len, phs, |phs|)
    requires ValidBase(base) && OnlyTables(loaded, final, base) && Built(final, base)
    requires i < |phs| && phs[i].ptype == PT_LOAD && ClearOf(phs[i], base) && k < phs[i].memsz
    ensures var a := phs[i].vaddr - KERNEL_VMA + k;
            && 0 <= a < |final| && Translate(final, base, phs[i].vaddr + k) == Mapped(a, true)
            && final[a] == SegmentByte(m, image, phs[i], k)
  {
    KernelReads(m, image, len, phs, loaded, final, base, i, k);
  }

  /** A byte is read as prescribed if and only if no table lies on it, or the table's byte happens to equal it. */
  lemma ReadAsPrescribed(m: seq<Byte>, image: nat, len: nat, phs: seq<Phdr>, loaded: seq<Byte>, final: seq<Byte>,
                         base: nat, i: nat, k: nat)
    requires image + len <= |m| && AllPlaced(phs, image, len, |m|) && KernelSegments(phs)
    requires Progress(loaded, m, image, len, phs, |phs|)
    requires ValidBase(base) && OnlyTables(loaded, final, base) && Built(final, base)
    requires i < |phs| && phs[i].ptype == PT_LOAD && k < phs[i].memsz
    ensures var a := phs[i].vaddr - KERNEL_VMA + k;
            && 0 <= a < |final|
            && (final[a] == SegmentByte(m, image, phs[i], k) <==>
                  !InTables(base, a) || TableByte(base, a - base) == SegmentByte(m, image, phs[i], k))
  {
    SegmentHolds(m, image, len, phs, loaded, final, base, i, k);
  }

  /** Every ELF64 file of well-placed segments is loaded: its headers in order over the original, its entry point. */
  lemma FileLoads(m: seq<Byte>, image: nat, len: nat, entry: nat, phoff: nat, phs: seq<Phdr>) returns (loaded: seq<Byte>)
    requires ElfFile(m, image, len, entry, phoff, phs) && AllPlaced(phs, image, len, |m|)
    ensures LoadAll(m, image) == Some(loaded) && |loaded| == |m| && Entry(loaded, image) == entry
    ensures Progress(loaded, m, image, len, phs, |phs|)
  {
    FileLayout(m, image, len, entry, phoff, phs);
    WellPlacedLoads(m, image, len);
    loaded := LoadAll(m, image).value;
  }

  /**
   For every ELF64 file given by its octets, whose segments are well placed and apart: each lies,
   file bytes and then zeros up to p_memsz, at its physical address less the kernel base.
   */
  lemma FileIsLoaded(m: seq<Byte>, image: nat, len: nat, entry: nat, phoff: nat, phs: seq<Phdr>, i: nat, k: nat)
    returns (loaded: seq<Byte>)
    requires ElfFile(m, image, len, entry, phoff, phs) && AllPlaced(phs, image, len, |m|) && Segments(phs)
    requires i < |phs| && phs[i].ptype == 1 && k < phs[i].memsz
    ensures LoadAll(m, image) == Some(loaded) && |loaded| == |m| && Entry(loaded, image) == entry
    ensures image + phs[i].offset + phs[i].filesz <= |m|
    ensures var a := phs[i].paddr - 0xFFFF_FFFF_8000_0000 + k;
            0 <= a < |m| && loaded[a] == if k < phs[i].filesz then m[image + phs[i].offset + k] else 0
  {
    loaded := FileLoads(m, image, len, entry, phoff, phs);
    assert Placed(phs[i], image, len, |m|);
    SegmentLoaded(m, image, len, phs, loaded, i, k);
  }

  /**
   The whole way, for every ELF64 file given by its octets: a kernel whose segments are well
   placed is loaded, and a segment clear of the tables then built is read, through them, as its
   file bytes followed by zeros up to p_memsz.
   */
  lemma FileIsSeen(m: seq<Byte>, image: nat, len: nat, entry: nat, phoff: nat, phs: seq<Phdr>,
                   loaded: seq<Byte>, final: seq<Byte>, base: nat, i: nat, k: nat)
    requires ElfFile(m, image, len, entry, phoff, phs) && AllPlaced(phs, image, len, |m|) && KernelSegments(phs)
    requires LoadAll(m, image) == Some(loaded) && OnlyTables(loaded, final, base) && ValidBase(base) && Built(final, base)
    requires i < |phs| && phs[i].ptype == 1 && ClearOf(phs[i], base) && k < phs[i].memsz
    ensures 0xFFFF_FFFF_8000_0000 <= phs[i].vaddr && image + phs[i].offset + phs[i].filesz <= |m|
    ensures var a := phs[i].vaddr - 0xFFFF_FFFF_8000_0000 + k;
            && Translate(final, base, phs[i].vaddr + k) == Mapped(a, true) && a < |final|
            && final[a] == if k < phs[i].filesz then m[image + phs[i].offset + k] else 0
  {
    var l := FileLoads(m, image, len, entry, phoff, phs);
    assert Placed(phs[i], image, len, |m|) && KernelSegment(phs[i]);
    KernelSeesItsImage(m, image, len, phs, loaded, final, base, i, k);
  }

  // A kernel of one segment, 14 KiB of 0x90 and 2 KiB of .bss, linked at the kernel base, its file at 1 MiB.

  const SAMPLE_IMAGE: nat := 0x10_0000
  const SAMPLE_FILE: nat := 0x3800
  const SAMPLE_SIZE: nat := 0x4000
  const SAMPLE_PHDR: Phdr := Phdr(1, 120, KERNEL_VMA, KERNEL_VMA, SAMPLE_FILE, SAMPLE_SIZE)

  function Fill(n: nat, b: Byte): (s: seq<Byte>)
    ensures |s| == n && forall i :: 0 <= i < n ==> s[i] == b
  {
    seq(n, _ => b)
  }

  function SampleEhdr(): (e: seq<Byte>)
    ensures |e| == 64
  {
    [0x7F] + Ascii("ELF") + [2] + Fill(19, 0) + Octets(KERNEL_VMA, 8) + Octets(64, 8) + Fill(16, 0) + Octets(1, 2) + Fill(6, 0)
  }

  function SamplePhdr(): (e: seq<Byte>)
    ensures |e| == 56
  {
    Octets(1, 4) + Fill(4, 0) + Octets(120, 8) + Octets(KERNEL_VMA, 8) + Octets(KERNEL_VMA, 8)
    + Octets(SAMPLE_FILE, 8) + Octets(SAMPLE_SIZE, 8) + Fill(8, 0)
  }

  const SAMPLE_LEN: nat := 120 + SAMPLE_FILE

  /** Memory below the file is all ones before the kernel is loaded there. */
  function SampleMemory(): (m: seq<Byte>)
    ensures |m| == SAMPLE_IMAGE + SAMPLE_LEN
  {
    Fill(SAMPLE_IMAGE, 0xFF) + SampleEhdr() + SamplePhdr() + Fill(SAMPLE_FILE, 0x90)
  }

  /** Octets `i..j` of a part of memory that stands at `a`. */
  lemma PartStands(m: seq<Byte>, a: nat, part: seq<Byte>, i: nat, n: nat, v: nat)
    requires a + |part| <= |m| && m[a..a + |part|] == part && i + n <= |part| && part[i..i + n] == Octets(v, n) && v < Pow256(n)
    ensures StandsAt(m, a + i, n, v)
  {
    SliceOfSlice(m, a, a + |part|, i, i + n);
    forall k | 0 <= k < n
      ensures m[a + i + k] == Octet(v, k)
    {
      assert m[a + i..a + i + n] == Octets(v, n);
      assert m[a + i..a + i + n][k] == m[a + i + k] && Octets(v, n)[k] == Octet(v, k);
    }
  }

  lemma SampleEhdrStands()
    ensures var m := SampleMemory();
            && m[SAMPLE_IMAGE..SAMPLE_IMAGE + 5] == [0x7F] + Ascii("ELF") + [2]
            && StandsAt(m, SAMPLE_IMAGE + 24, 8, KERNEL_VMA) && StandsAt(m, SAMPLE_IMAGE + 32, 8, 64)
            && StandsAt(m, SAMPLE_IMAGE + 56, 2, 1)
  {
    var m, e := SampleMemory(), SampleEhdr();
    WordSizes();
    assert m[SAMPLE_IMAGE..SAMPLE_IMAGE + 64] == e;
    assert e[24..32] == Octets(KERNEL_VMA, 8) && e[32..40] == Octets(64, 8) && e[56..58] == Octets(1, 2);
    PartStands(m, SAMPLE_IMAGE, e, 24, 8, KERNEL_VMA);
    PartStands(m, SAMPLE_IMAGE, e, 32, 8, 64);
    PartStands(m, SAMPLE_IMAGE, e, 56, 2, 1);
    SliceOfSlice(m, SAMPLE_IMAGE, SAMPLE_IMAGE + 64, 0, 5);
    assert e[0..5] == [0x7F] + Ascii("ELF") + [2];
  }

  lemma SamplePhdrStands()
    ensures PhdrStands(SampleMemory(), SAMPLE_IMAGE + 64, SAMPLE_PHDR)
  {
    var m, e, a := SampleMemory(), SamplePhdr(), SAMPLE_IMAGE + 64;
    WordSizes();
    assert Pow256(4) == TWO32;
    assert m[a..a + 56] == e;
    assert e[0..4] == Octets(1, 4) && e[8..16] == Octets(120, 8);
    assert e[16..24] == Octets(KERNEL_VMA, 8) && e[24..32] == Octets(KERNEL_VMA, 8);
    assert e[32..40] == Octets(SAMPLE_FILE, 8) && e[40..48] == Octets(SAMPLE_SIZE, 8);
    PartStands(m, a, e, 0, 4, 1);
    PartStands(m, a, e, 8, 8, 120);
    PartStands(m, a, e, 16, 8, KERNEL_VMA);
    PartStands(m, a, e, 24, 8, KERNEL_VMA);
    PartStands(m, a, e, 32, 8, SAMPLE_FILE);
    PartStands(m, a, e, 40, 8, SAMPLE_SIZE);
  }

  /** The sample is a well-placed kernel of one segment. */
  lemma SampleIsKernel()
    ensures var m, phs := SampleMemory(), [SAMPLE_PHDR];
            && ElfFile(m, SAMPLE_IMAGE, SAMPLE_LEN, KERNEL_VMA, 64, phs)
            && AllPlaced(phs, SAMPLE_IMAGE, SAMPLE_LEN, |m|) && KernelSegments(phs)
  {
    SampleEhdrStands();
    SamplePhdrStands();
    assert Dest(SAMPLE_PHDR) == 0;
  }

  lemma SampleByte(k: nat)
    requires k < SAMPLE_FILE
    ensures SampleMemory()[SAMPLE_IMAGE + (120 + k)] == 0x90
  {
    assert SampleMemory()[SAMPLE_IMAGE + (120 + k)] == Fill(SAMPLE_FILE, 0x90)[k];
  }

  lemma SampleSegmentSeen(m: seq<Byte>, loaded: seq<Byte>, final: seq<Byte>, base: nat, k: nat)
    requires ElfFile(m, SAMPLE_IMAGE, SAMPLE_LEN, KERNEL_VMA, 64, [SAMPLE_PHDR])
    requires AllPlaced([SAMPLE_PHDR], SAMPLE_IMAGE, SAMPLE_LEN, |m|) && KernelSegments([SAMPLE_PHDR])
    requires LoadAll(m, SAMPLE_IMAGE) == Some(loaded) && OnlyTables(loaded, final, base)
    requires ValidBase(base) && Built(final, base) && 0x4000 <= base && k < 0x4000
    ensures Translate(final, base, KERNEL_VMA + k) == Mapped(k, true) && k < |final|
    ensures final[k] == if k < 0x3800 then m[SAMPLE_IMAGE + (120 + k)] else 0
  {
    assert Dest(SAMPLE_PHDR) == 0;
    FileIsSeen(m, SAMPLE_IMAGE, SAMPLE_LEN, KERNEL_VMA, 64, [SAMPLE_PHDR], loaded, final, base, 0, k);
  }

  /** Read through tables that are clear of it, the sample is its file bytes and then zeros. */
  lemma SampleIsSeen(loaded: seq<Byte>, final: seq<Byte>, base: nat, k: nat)
    requires LoadAll(SampleMemory(), SAMPLE_IMAGE) == Some(loaded) && OnlyTables(loaded, final, base)
    requires ValidBase(base) && Built(final, base) && 0x4000 <= base && k < 0x4000
    ensures Translate(final, base, KERNEL_VMA + k) == Mapped(k, true) && k < |final|
    ensures final[k] == if k < 0x3800 then 0x90 else 0
  {
    SampleIsKernel();
    SampleSegmentSeen(SampleMemory(), loaded, final, base, k);
    if k < 0x3800 {
      SampleByte(k);
    }
  }

  /**
   Tables on top of a segment lose its bytes: the sample kernel, loaded at 0, with the table
   pages allocated at 0 as well, reads zero where its file has 0x90.
   */
  lemma OverlapLosesBytes(loaded: seq<Byte>, final: seq<Byte>)
    requires LoadAll(SampleMemory(), SAMPLE_IMAGE) == Some(loaded) && OnlyTables(loaded, final, 0)
    requires ValidBase(0) && Built(final, 0)
    ensures var a := 3 * 4096 + 8 * 3;
            && Translate(final, 0, KERNEL_VMA + a) == Mapped(a, true)
            && final[a] == 0 && SegmentByte(SampleMemory(), SAMPLE_IMAGE, SAMPLE_PHDR, a) == 0x90
  {
    var m, a := SampleMemory(), 3 * 4096 + 8 * 3;
    SampleIsKernel();
    var l := FileLoads(m, SAMPLE_IMAGE, SAMPLE_LEN, KERNEL_VMA, 64, [SAMPLE_PHDR]);
    KernelReads(m, SAMPLE_IMAGE, SAMPLE_LEN, [SAMPLE_PHDR], loaded, final, 0, 0, a);
    UnusedEntryIsZero(0);
    SampleByte(a);
  }

  /** Entry 3 of the kernel's page directory is not used. */
  lemma UnusedEntryIsZero(base: nat)
    requires ValidBase(base)
    ensures TableByte(base, 3 * 4096 + 8 * 3) == 0
  {
    assert Paging.Entry(base, 3, 3) == 0;
  }

  /** The part of efi_main that loads the kernel and builds the tables; None stands for fatal(). */
  method LoadKernel(mem: array<Byte>, image: nat, alloc: Option<nat>, ghost len: nat) returns (r: Option<(nat, nat)>)
    requires image + EHDR_SIZE <= mem.Length
    requires GoodMagic(mem[..], image) ==> LoadAll(mem[..], image).Some?
    requires alloc.Some? ==> ValidBase(alloc.value) && alloc.value + REGION <= mem.Length
    modifies mem
    ensures !GoodMagic(old(mem[..]), image) ==> r.None? && mem[..] == old(mem[..])
    ensures r.Some? ==> alloc == Some(r.value.1)
    ensures r.Some? <==> alloc.Some? && GoodMagic(old(mem[..]), image) && Entry(LoadAll(old(mem[..]), image).value, image) != 0
    ensures r.Some? ==> r.value.0 == Entry(LoadAll(old(mem[..]), image).value, image)
    ensures r.Some? && Loadable(old(mem[..]), image, len) ==>
              r.value.0 == Entry(old(mem[..]), image) && Bootable(old(mem[..]), image, len, mem[..], r.value.1)
  {
    ghost var m := mem[..];
    var entry := Load(mem, image);
    if entry == 0 {
      return None;
    }
    ghost var loaded := mem[..];
    var ok, cr3 := SetupPaging(alloc, mem, 0);
    if !ok {
      return None;
    }
    if Loadable(m, image, len) {
      WellPlacedLoads(m, image, len);
      BootableMemory(m, image, len, loaded, mem[..], cr3);
    }
    return Some((entry, cr3));
  }

  /** Every byte of every segment of a kernel is reached, and prescribed if the segment is clear of the tables. */
  ghost predicate Bootable(m: seq<Byte>, image: nat, len: nat, final: seq<Byte>, base: nat)
    requires Loadable(m, image, len)
  {
    && ValidBase(base)
    && var phs := Headers(m, image, len);
       KernelSegments(phs) ==>
         forall i: nat, k: nat :: i < |phs| && phs[i].ptype == PT_LOAD && k < phs[i].memsz ==>
           Reaches(final, base, phs[i], k) && Holds(final, base, m, image, phs[i], k)
  }

  lemma BootableMemory(m: seq<Byte>, image: nat, len: nat, loaded: seq<Byte>, final: seq<Byte>, base: nat)
    requires Loadable(m, image, len) && LoadedFrom(loaded, m, image, len)
    requires ValidBase(base) && OnlyTables(loaded, final, base) && Built(final, base)
    ensures Bootable(m, image, len, final, base)
  {
    var phs := Headers(m, image, len);
    if KernelSegments(phs) {
      forall i: nat, k: nat | i < |phs| && phs[i].ptype == PT_LOAD && k < phs[i].memsz
        ensures Reaches(final, base, phs[i], k) && Holds(final, base, m, image, phs[i], k)
      {
        KernelReads(m, image, len, phs, loaded, final, base, i, k);
      }
    }
  }
}
