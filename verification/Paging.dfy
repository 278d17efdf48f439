/**
 The page tables built by the UEFI loader.  68 pages: PML4, the PDPT shared by the
 identity map and the direct map, the PDPT and directory of the kernel window, and 64
 page directories of 2 MiB pages.  `Walk` is the four-level translation of 64-bit mode
 (section 4.5 of the Intel SDM, volume 3A); the main result says what it yields for
 every canonical address.
 */
module Paging {
  import opened Arithmetic
  import opened Bits
  import opened Bytes
  import opened Memory

  const PAGES := 68
  const QWORDS := PAGES * 512
  const P := 1
  const W := 2
  const PS := 0x80

  const MIB2: int := 0x20_0000
  const GIB: int := 0x4000_0000
  const GIB64: int := 0x10_0000_0000
  const TWO47: int := 0x8000_0000_0000
  const HHDM: int := 0xFFFF_8000_0000_0000
  const KERNEL_VMA: int := 0xFFFF_FFFF_8000_0000
  const WINDOW: int := 0x60_0000

  // ---------------------------------------------------------------- the hardware's view

  datatype Translation = NotPresent | Mapped(phys: nat, writable: bool) | OutsideMemory

  predicate Present(e: nat) { e % 2 == 1 }
  predicate Writable(e: nat) { e / 2 % 2 == 1 }
  predicate Large(e: nat) { e / 128 % 2 == 1 }

  /** Bits 51..12 of an entry, as an address. */
  function NextTable(e: nat): nat {
    e / 4096 % 0x100_0000_0000 * 4096
  }

  function Index(va: nat, shift: nat): nat
    requires shift > 0
  {
    va / shift % 512
  }

  /** The entry at physical address `a`. */
  function ReadEntry(m: seq<Byte>, a: nat): Option<nat> {
    if a + 8 <= |m| then Some(Field(m, a, 8)) else None
  }

  function Walk1(m: seq<Byte>, table: nat, va: nat, writable: bool): Translation {
    var e := ReadEntry(m, table + 8 * Index(va, 0x1000));
    if e.None? then OutsideMemory
    else if !Present(e.value) then NotPresent
    else Mapped(NextTable(e.value) + va % 0x1000, writable && Writable(e.value))
  }

  function Walk2(m: seq<Byte>, table: nat, va: nat, writable: bool): Translation {
    var e := ReadEntry(m, table + 8 * Index(va, MIB2));
    if e.None? then OutsideMemory
    else if !Present(e.value) then NotPresent
    else if Large(e.value) then
      Mapped(e.value / MIB2 % 0x8000_0000 * MIB2 + va % MIB2, writable && Writable(e.value))
    else Walk1(m, NextTable(e.value), va, writable && Writable(e.value))
  }

  function Walk3(m: seq<Byte>, table: nat, va: nat, writable: bool): Translation {
    var e := ReadEntry(m, table + 8 * Index(va, GIB));
    if e.None? then OutsideMemory
    else if !Present(e.value) then NotPresent
    else if Large(e.value) then
      Mapped(e.value / GIB % 0x40_0000 * GIB + va % GIB, writable && Writable(e.value))
    else Walk2(m, NextTable(e.value), va, writable && Writable(e.value))
  }

  /** Translate `va` with CR3 = `cr3`. */
  function Translate(m: seq<Byte>, cr3: nat, va: nat): Translation {
    var e := ReadEntry(m, cr3 + 8 * Index(va, 0x80_0000_0000));
    if e.None? then OutsideMemory
    else if !Present(e.value) then NotPresent
    else Walk3(m, NextTable(e.value), va, Writable(e.value))
  }

  predicate Canonical(va: nat) {
    va < TWO47 || TWO64 - TWO47 <= va < TWO64
  }

  /** The layout the kernel is promised. */
  function Promised(va: nat): Translation {
    if va < GIB64 then Mapped(va, true)
    else if HHDM <= va < HHDM + GIB64 then Mapped(va - HHDM, true)
    else if KERNEL_VMA <= va < KERNEL_VMA + WINDOW then Mapped(va - KERNEL_VMA, true)
    else NotPresent
  }

  // ---------------------------------------------------------------- the loader's view

  predicate ValidBase(base: nat) {
    base % 4096 == 0 && base + PAGES * 4096 <= 0x10_0000_0000_0000
  }

  /** A page-aligned address with flag bits or-ed in. */
  function WithFlags(addr: nat, flags: nat): (e: nat)
    requires addr % 4096 == 0 && flags < 4096
    ensures e == addr + flags
  {
    assert ShiftLeft(1, 6) == 64 && ShiftLeft(1, 12) == 4096;
    OrIsSum(addr, flags, 12);
    Or(addr, flags)
  }

  /** What entry `slot` of page `page` should hold. */
  function Entry(base: nat, page: nat, slot: nat): nat
    requires ValidBase(base) && page < PAGES && slot < 512
  {
    if page == 0 then
      if slot == 0 || slot == 256 then WithFlags(base + 1 * 4096, P + W)
      else if slot == 511 then WithFlags(base + 2 * 4096, P + W) else 0
    else if page == 1 then
      if slot < 64 then WithFlags(base + (4 + slot) * 4096, P + W) else 0
    else if page == 2 then
      if slot == 510 then WithFlags(base + 3 * 4096, P + W) else 0
    else if page == 3 then
      if slot < 3 then WithFlags(slot * MIB2, PS + P + W) else 0
    else
      WithFlags((page - 4) * GIB + slot * MIB2, PS + P + W)
  }

  const REGION: int := PAGES * 4096

  /** The table pages at `base`, as 64-bit entries. */
  function Tables(m: seq<Byte>, base: nat): (t: seq<nat>)
    requires base + REGION <= |m|
    ensures |t| == QWORDS
  {
    seq(QWORDS, k requires 0 <= k < QWORDS => Field(m, base + 8 * k, 8))
  }

  predicate Built(m: seq<Byte>, base: nat)
    requires ValidBase(base)
  {
    base + REGION <= |m| && forall k :: 0 <= k < QWORDS ==> Tables(m, base)[k] == Entry(base, k / 512, k % 512)
  }

  /** Nothing but the table pages has changed. */
  predicate OnlyTables(m: seq<Byte>, m': seq<Byte>, base: nat) {
    |m| == |m'| && forall a :: 0 <= a < |m| && !(base <= a < base + REGION) ==> m'[a] == m[a]
  }

  /** Entries written while filling page directories 0..i-1, everything else zero. */
  predicate Filled(tables: seq<nat>, base: nat, i: nat)
    requires ValidBase(base) && i <= 64
  {
    && |tables| == QWORDS
    && forall k :: 0 <= k < QWORDS ==>
         tables[k] == if (k / 512 == 1 && k % 512 < i) || 4 <= k / 512 < 4 + i then Entry(base, k / 512, k % 512) else 0
  }

  /** Storing the octets of one entry changes that entry and no other. */
  lemma StoredEntry(m: seq<Byte>, m': seq<Byte>, base: nat, k: nat)
    requires base + REGION <= |m| == |m'| && k < QWORDS
    requires forall a :: 0 <= a < |m| && !(base + 8 * k <= a < base + 8 * k + 8) ==> m'[a] == m[a]
    ensures Tables(m', base) == Tables(m, base)[k := Field(m', base + 8 * k, 8)]
    ensures OnlyTables(m, m', base)
  {
    forall j | 0 <= j < QWORDS && j != k
      ensures Tables(m', base)[j] == Tables(m, base)[j]
    {
      SameField(m, m', base + 8 * j, 8);
    }
  }

  /** `table[k] = v`, counting entries from the first table page. */
  method StoreEntry(mem: array<Byte>, base: nat, k: nat, v: nat)
    requires base + REGION <= mem.Length && k < QWORDS && v < TWO64
    modifies mem
    ensures Tables(mem[..], base) == old(Tables(mem[..], base))[k := v]
    ensures OnlyTables(old(mem[..]), mem[..], base)
  {
    ghost var before := mem[..];
    StoreQword(mem, base + 8 * k, v);
    StoredEntry(before, mem[..], base, k);
  }

  /** The inner loop: one directory of 512 large pages. */
  method FillDirectory(mem: array<Byte>, base: nat, i: nat)
    requires ValidBase(base) && i < 64 && base + REGION <= mem.Length
    modifies mem
    ensures forall k :: 0 <= k < QWORDS ==>
              Tables(mem[..], base)[k] ==
                if k / 512 == 4 + i then Entry(base, k / 512, k % 512) else old(Tables(mem[..], base))[k]
    ensures OnlyTables(old(mem[..]), mem[..], base)
  {
    var j := 0;
    while j < 512
      invariant 0 <= j <= 512
      invariant forall k :: 0 <= k < QWORDS ==>
        Tables(mem[..], base)[k] ==
          if k / 512 == 4 + i && k % 512 < j then Entry(base, k / 512, k % 512) else old(Tables(mem[..], base))[k]
      invariant OnlyTables(old(mem[..]), mem[..], base)
    {
      var phys := i * GIB + j * MIB2;
      StoreEntry(mem, base, (4 + i) * 512 + j, WithFlags(phys, PS + P + W));
      j := j + 1;
    }
  }

  method Zero(mem: array<Byte>, base: nat)
    requires base + REGION <= mem.Length
    modifies mem
    ensures forall k :: 0 <= k < QWORDS ==> Tables(mem[..], base)[k] == 0
    ensures OnlyTables(old(mem[..]), mem[..], base)
  {
    var k := 0;
    while k < QWORDS
      invariant 0 <= k <= QWORDS
      invariant forall x :: 0 <= x < k ==> Tables(mem[..], base)[x] == 0
      invariant OnlyTables(old(mem[..]), mem[..], base)
    {
      StoreEntry(mem, base, k, 0);
      k := k + 1;
    }
  }

  /** The loop over the 64 gigabytes. */
  method FillShared(mem: array<Byte>, base: nat)
    requires ValidBase(base) && base + REGION <= mem.Length
    modifies mem
    ensures Filled(Tables(mem[..], base), base, 64)
    ensures OnlyTables(old(mem[..]), mem[..], base)
  {
    Zero(mem, base);
    var i := 0;
    while i < 64
      invariant 0 <= i <= 64
      invariant Filled(Tables(mem[..], base), base, i)
      invariant OnlyTables(old(mem[..]), mem[..], base)
    {
      StoreEntry(mem, base, 1 * 512 + i, WithFlags(base + (4 + i) * 4096, P + W));
      FillDirectory(mem, base, i);
      i := i + 1;
    }
  }

  /** The entries above the shared directories: PML4 and kernel window. */
  predicate TopEntry(k: nat) {
    k == 0 || k == 256 || k == 511 || k == 2 * 512 + 510 || 3 * 512 <= k < 3 * 512 + 3
  }

  method FillTop(mem: array<Byte>, base: nat)
    requires ValidBase(base) && base + REGION <= mem.Length
    modifies mem
    ensures forall k :: 0 <= k < QWORDS ==>
              Tables(mem[..], base)[k] ==
                if TopEntry(k) then Entry(base, k / 512, k % 512) else old(Tables(mem[..], base))[k]
    ensures OnlyTables(old(mem[..]), mem[..], base)
  {
    StoreEntry(mem, base, 2 * 512 + 510, WithFlags(base + 3 * 4096, P + W));
    StoreEntry(mem, base, 3 * 512 + 0, WithFlags(0, PS + P + W));
    StoreEntry(mem, base, 3 * 512 + 1, WithFlags(0x20_0000, PS + P + W));
    StoreEntry(mem, base, 3 * 512 + 2, WithFlags(0x40_0000, PS + P + W));
    StoreEntry(mem, base, 0, WithFlags(base + 1 * 4096, P + W));
    StoreEntry(mem, base, 256, WithFlags(base + 1 * 4096, P + W));
    StoreEntry(mem, base, 511, WithFlags(base + 2 * 4096, P + W));
  }

  /** efi_setup_hhdm_paging: `alloc` is the address AllocatePages returned; the pages lie in `mem`. */
  method SetupPaging(alloc: Option<nat>, mem: array<Byte>, pml4Phys: nat) returns (ok: bool, pml4Phys': nat)
    requires alloc.Some? ==> ValidBase(alloc.value) && alloc.value + REGION <= mem.Length
    modifies mem
    ensures ok <==> alloc.Some?
    ensures ok ==> Built(mem[..], alloc.value) && pml4Phys' == alloc.value && OnlyTables(old(mem[..]), mem[..], alloc.value)
    ensures !ok ==> pml4Phys' == pml4Phys && mem[..] == old(mem[..])
  {
    if alloc.None? {
      return false, pml4Phys;
    }
    var base := alloc.value;
    FillShared(mem, base);
    FillTop(mem, base);
    return true, base;
  }

  // ---------------------------------------------------------------- what the walk sees

  lemma ReadBuilt(m: seq<Byte>, base: nat, page: nat, slot: nat)
    requires ValidBase(base) && Built(m, base) && page < PAGES && slot < 512
    ensures ReadEntry(m, base + page * 4096 + 8 * slot) == Some(Entry(base, page, slot))
  {
    var k := page * 512 + slot;
    assert k / 512 == page && k % 512 == slot;
    assert Tables(m, base)[k] == Entry(base, page, slot);
  }

  lemma PointerEntry(addr: nat)
    requires addr % 4096 == 0 && addr < 0x10_0000_0000_0000
    ensures var e := WithFlags(addr, P + W);
            Present(e) && Writable(e) && !Large(e) && NextTable(e) == addr
  {
  }

  lemma LeafEntry(addr: nat)
    requires addr % MIB2 == 0 && addr < 0x10_0000_0000_0000
    ensures addr % 4096 == 0
    ensures var e := WithFlags(addr, PS + P + W);
            Present(e) && Writable(e) && Large(e) && e / MIB2 % 0x8000_0000 * MIB2 == addr
  {
    var k := addr / MIB2;
    assert addr == MIB2 * k && k < 0x8000_0000;
    DivModUnique(addr + (PS + P + W), MIB2, k, PS + P + W);
    DivModUnique(addr, 4096, 512 * k, 0);
    LeafFlags(k);
  }

  /** The bits of a large-page entry's flags. */
  lemma LeafFlags(k: nat)
    ensures var e := 0x20_0000 * k + 131; Present(e) && Writable(e) && Large(e)
  {
    var e := 0x20_0000 * k + 131;
    DivModUnique(e, 2, 0x10_0000 * k + 65, 1);
    DivModUnique(e / 2, 2, 0x8_0000 * k + 32, 1);
    DivModUnique(e, 128, 0x4000 * k + 1, 3);
    DivModUnique(e / 128, 2, 0x2000 * k, 1);
  }

  lemma SplitOffset(v: nat)
    ensures v / GIB * GIB + v / MIB2 % 512 * MIB2 == v / MIB2 * MIB2
    ensures v / MIB2 * MIB2 + v % MIB2 == v
    ensures v < GIB64 <==> v / GIB < 64
  {
    assert v / GIB == v / MIB2 / 512;
  }

  lemma WalkDirectory(m: seq<Byte>, base: nat, va: nat, v: nat)
    requires ValidBase(base) && Built(m, base) && v < GIB64
    requires Index(va, MIB2) == v / MIB2 % 512 && va % MIB2 == v % MIB2
    ensures Walk2(m, base + (4 + v / GIB) * 4096, va, true) == Mapped(v, true)
  {
    SplitOffset(v);
    ReadBuilt(m, base, 4 + v / GIB, v / MIB2 % 512);
    LeafEntry(v / MIB2 * MIB2);
  }

  /** Both low-memory maps go through page 1; `v` is the offset into either of them. */
  lemma WalkShared(m: seq<Byte>, base: nat, va: nat, v: nat)
    requires ValidBase(base) && Built(m, base)
    requires v < 0x80_0000_0000
    requires Index(va, GIB) == v / GIB && Index(va, MIB2) == v / MIB2 % 512 && va % MIB2 == v % MIB2
    ensures Walk3(m, base + 4096, va, true) == if v < GIB64 then Mapped(v, true) else NotPresent
  {
    SplitOffset(v);
    ReadBuilt(m, base, 1, v / GIB);
    if v < GIB64 {
      PointerEntry(base + (4 + v / GIB) * 4096);
      WalkDirectory(m, base, va, v);
    }
  }

  lemma WalkWindow(m: seq<Byte>, base: nat, va: nat, x: nat)
    requires ValidBase(base) && Built(m, base) && x < GIB
    requires Index(va, MIB2) == x / MIB2 && va % MIB2 == x % MIB2
    ensures Walk2(m, base + 3 * 4096, va, true) == if x < WINDOW then Mapped(x, true) else NotPresent
  {
    ReadBuilt(m, base, 3, x / MIB2);
    if x < WINDOW {
      LeafEntry(x / MIB2 * MIB2);
    }
  }

  /** The kernel window goes through pages 2 and 3; `v` is the offset from the top 512 GiB. */
  lemma WalkKernel(m: seq<Byte>, base: nat, va: nat, v: nat)
    requires ValidBase(base) && Built(m, base)
    requires v < 0x80_0000_0000
    requires Index(va, GIB) == v / GIB && Index(va, MIB2) == v / MIB2 % 512 && va % MIB2 == v % MIB2
    ensures Walk3(m, base + 8192, va, true)
         == if 510 * GIB <= v < 510 * GIB + WINDOW then Mapped(v - 510 * GIB, true) else NotPresent
  {
    ReadBuilt(m, base, 2, v / GIB);
    if v / GIB == 510 {
      var x := v - 510 * GIB;
      PointerEntry(base + 3 * 4096);
      DivModUnique(v, MIB2, 510 * 512 + x / MIB2, x % MIB2);
      DivModUnique(v / MIB2, 512, 510 + x / MIB2 / 512, x / MIB2 % 512);
      WalkWindow(m, base, va, x);
    }
  }

  /** The indices of a canonical address, by half. */
  lemma LowerHalf(va: nat)
    requires va < TWO47
    ensures Index(va, 0x80_0000_0000) == va / 0x80_0000_0000 < 256
    ensures va < 0x80_0000_0000 ==> Index(va, GIB) == va / GIB
  {
  }

  lemma UpperHalf(va: nat, w: nat)
    requires va == HHDM + w && w < TWO47
    ensures Index(va, 0x80_0000_0000) == 256 + w / 0x80_0000_0000 < 512
    ensures Index(va, GIB) == w % 0x80_0000_0000 / GIB
    ensures Index(va, MIB2) == w % 0x80_0000_0000 / MIB2 % 512
    ensures va % MIB2 == w % 0x80_0000_0000 % MIB2
  {
    var v := w % 0x80_0000_0000;
    assert w == 0x80_0000_0000 * (w / 0x80_0000_0000) + v;
    assert va / 0x80_0000_0000 == 0x1FF_FF00 + w / 0x80_0000_0000;
    assert va / GIB == 512 * (va / 0x80_0000_0000) + v / GIB;
    assert va / MIB2 == 512 * 512 * (va / 0x80_0000_0000) + v / MIB2;
  }

  lemma WalkTop(m: seq<Byte>, base: nat, va: nat)
    requires ValidBase(base) && Built(m, base)
    ensures var i := Index(va, 0x80_0000_0000);
            Translate(m, base, va) ==
              if i == 0 || i == 256 then Walk3(m, base + 4096, va, true)
              else if i == 511 then Walk3(m, base + 8192, va, true)
              else NotPresent
  {
    ReadBuilt(m, base, 0, Index(va, 0x80_0000_0000));
    PointerEntry(base + 4096);
    PointerEntry(base + 8192);
  }

  lemma WalkUpper(m: seq<Byte>, base: nat, va: nat, w: nat)
    requires ValidBase(base) && Built(m, base) && va == HHDM + w && w < TWO47
    ensures Translate(m, base, va) == Promised(va)
  {
    WalkTop(m, base, va);
    UpperHalf(va, w);
    if w < 0x80_0000_0000 {
      WalkShared(m, base, va, w);
    } else if w >= 255 * 0x80_0000_0000 {
      WalkKernel(m, base, va, w % 0x80_0000_0000);
    }
  }

  /** The tables translate every canonical address as promised and no other. */
  lemma WalkIsPromised(m: seq<Byte>, base: nat, va: nat)
    requires ValidBase(base) && Built(m, base) && Canonical(va)
    ensures Translate(m, base, va) == Promised(va)
  {
    if va < TWO47 {
      WalkTop(m, base, va);
      LowerHalf(va);
      if va < 0x80_0000_0000 {
        WalkShared(m, base, va, va);
      }
    } else {
      WalkUpper(m, base, va, va - HHDM);
    }
  }
}
