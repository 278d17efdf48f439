/**
 The ACPI MADT walk of the UEFI loader: checksum, then a walk over variable-length
 interrupt controller structures (section 5.2.12 of ACPI 6.5) that records the enabled
 processors.
 */
module Madt {
  import opened Arithmetic
  import opened Bytes
  import opened Memory

  const HEADER := 44
  const MAX_CPUS := 64

  datatype Cpu = Cpu(processorId: nat, lapicId: nat, gotoAddress: nat, extraArgument: nat)

  // ---------------------------------------------------------------- meaning

  function Sum(b: seq<Byte>): nat
    decreases |b|
  {
    if b == [] then 0 else Sum(b[..|b| - 1]) + b[|b| - 1]
  }

  /** The `length` field of the table header. */
  function TableLength(t: seq<Byte>): nat
    requires |t| >= 8
  {
    LittleEndian(t[4..8])
  }

  /** A structure: type, length, payload. */
  predicate WellFormed(s: seq<Byte>) {
    2 <= |s| <= 255 && s[1] == |s|
  }

  /** An enabled Processor Local APIC structure. */
  predicate EnabledCpu(s: seq<Byte>) {
    |s| >= 8 && s[0] == 0 && LittleEndian(s[4..8]) % 2 == 1
  }

  function CpuOf(s: seq<Byte>): Cpu
    requires |s| >= 8
  {
    Cpu(s[2], s[3], 0, 0)
  }

  /** The processors a list of structures names, in order. */
  function Cpus(list: seq<seq<Byte>>): seq<Cpu>
    decreases |list|
  {
    if list == [] then []
    else (if EnabledCpu(list[0]) then [CpuOf(list[0])] else []) + Cpus(list[1..])
  }

  function Serialise(list: seq<seq<Byte>>): seq<Byte>
    decreases |list|
  {
    if list == [] then [] else list[0] + Serialise(list[1..])
  }

  /** The structures a body splits into: until it ends, or a length is zero or runs past the end. */
  function Split(b: seq<Byte>): (list: seq<seq<Byte>>)
    ensures forall s :: s in list ==> |s| > 0
    decreases |b|
  {
    if |b| < 2 || b[1] == 0 || b[1] > |b| then [] else [b[..b[1]]] + Split(b[b[1]..])
  }

  /** Splitting recovers every serialised list. */
  lemma {:induction false} SplitSerialise(list: seq<seq<Byte>>)
    requires forall i :: 0 <= i < |list| ==> WellFormed(list[i])
    ensures Split(Serialise(list)) == list
    decreases |list|
  {
    if list != [] {
      var s, rest := list[0], Serialise(list[1..]);
      assert WellFormed(s);
      SplitSerialise(list[1..]);
      var b := s + rest;
      assert b[..|s|] == s && b[|s|..] == rest;
    }
  }

  // ---------------------------------------------------------------- the walk

  class BootInfo {
    const cpus: array<Cpu>
    var cpuCount: nat

    ghost predicate Valid()
      reads this
    {
      cpus.Length == MAX_CPUS
    }

    ghost function Table(): CpuTable
      reads this, cpus
    {
      CpuTable(cpuCount, cpus[..])
    }

    constructor ()
      ensures Valid() && fresh(cpus) && cpuCount == 1
    {
      cpus := new Cpu[MAX_CPUS](_ => Cpu(0, 0, 0, 0));
      cpuCount := 1;
    }
  }

  /** The processor table as a value. */
  datatype CpuTable = CpuTable(count: nat, cpus: seq<Cpu>)

  /** A table with the first 64 of `list` written over it; an empty list changes nothing. */
  function Overlay(list: seq<Cpu>, before: CpuTable): CpuTable
    requires |before.cpus| == MAX_CPUS
  {
    var n := Min(|list|, MAX_CPUS);
    CpuTable(if n > 0 then n else before.count, list[..n] + before.cpus[n..])
  }

  /** What parse_madt makes of a processor table. */
  function Published(t: seq<Byte>, before: CpuTable): CpuTable
    requires |t| >= 8 && TableLength(t) <= |t| && |before.cpus| == MAX_CPUS
  {
    if TableLength(t) < HEADER || Sum(t[..TableLength(t)]) % 256 != 0 then before
    else Overlay(Cpus(Split(t[HEADER..TableLength(t)])), before)
  }

  /** acpi_checksum_ok. */
  method ChecksumOk(t: seq<Byte>, len: nat) returns (ok: bool)
    requires len <= |t|
    ensures ok <==> Sum(t[..len]) % 256 == 0
  {
    var sum: int := 0;
    var i := 0;
    while i < len
      invariant 0 <= i <= len
      invariant sum == Sum(t[..i]) % 256
    {
      assert t[..i + 1][..i] == t[..i];
      sum := (sum + t[i]) % 256;
      i := i + 1;
    }
    return sum == 0;
  }

  /** The first `n` entries of the CPU table are these processors, the rest as before. */
  twostate predicate Recorded(info: BootInfo, list: seq<Cpu>, n: nat)
    requires info.Valid() && n <= |list| && n <= MAX_CPUS
    reads info, info.cpus
  {
    && (forall k :: 0 <= k < n ==> info.cpus[k] == list[k])
    && (forall k :: n <= k < MAX_CPUS ==> info.cpus[k] == old(info.cpus[k]))
  }

  lemma {:induction false} CpusAppend(a: seq<seq<Byte>>, b: seq<seq<Byte>>)
    ensures Cpus(a + b) == Cpus(a) + Cpus(b)
    decreases |a|
  {
    if |a| == 0 {
      assert a + b == b && Cpus(a) == [];
    } else {
      CpusAppend(a[1..], b);
      assert (a + b)[1..] == a[1..] + b;
    }
  }

  /** Where the walk stands: `done` structures are behind it, `found` of them recorded. */
  ghost predicate At(t: seq<Byte>, len: nat, ics: nat, done: seq<seq<Byte>>, found: nat) {
    && HEADER <= ics <= len <= |t|
    && Split(t[HEADER..len]) == done + Split(t[ics..len])
    && found == Min(|Cpus(done)|, MAX_CPUS)
  }

  /** Stepping over one structure. */
  lemma AtNext(t: seq<Byte>, len: nat, ics: nat, done: seq<seq<Byte>>, found: nat, n: nat)
    requires At(t, len, ics, done, found) && ics + 2 <= len && n == t[ics + 1] && 0 < n && ics + n <= len
    ensures var s := t[ics..ics + n];
            && Cpus(done + [s]) == Cpus(done) + (if EnabledCpu(s) then [CpuOf(s)] else [])
            && Split(t[HEADER..len]) == (done + [s]) + Split(t[ics + n..len])
  {
    var b, s := t[ics..len], t[ics..ics + n];
    assert b[1] == n && b[..n] == s && b[n..] == t[ics + n..len];
    CpusAppend(done, [s]);
    assert Cpus([s]) == (if EnabledCpu(s) then [CpuOf(s)] else []) + Cpus([s][1..]);
    assert done + ([s] + Split(b[n..])) == (done + [s]) + Split(b[n..]);
  }

  /** Where the walk stops, nothing more can be split off. */
  lemma AtEnd(t: seq<Byte>, len: nat, ics: nat, done: seq<seq<Byte>>, found: nat)
    requires At(t, len, ics, done, found)
    requires ics + 2 > len || t[ics + 1] == 0 || ics + t[ics + 1] > len
    ensures Split(t[HEADER..len]) == done
  {
    var b := t[ics..len];
    assert |b| >= 2 ==> b[1] == t[ics + 1];
    assert Split(b) == [];
  }

  /** parse_madt on a readable table. */
  method ParseMadt(info: BootInfo, t: seq<Byte>)
    requires info.Valid()
    requires |t| >= 8 && TableLength(t) <= |t|
    modifies info, info.cpus
    ensures info.Valid()
    ensures TableLength(t) < HEADER || Sum(t[..TableLength(t)]) % 256 != 0 ==>
              info.cpuCount == old(info.cpuCount) && info.cpus[..] == old(info.cpus[..])
    ensures TableLength(t) >= HEADER && Sum(t[..TableLength(t)]) % 256 == 0 ==>
              var list := Cpus(Split(t[HEADER..TableLength(t)]));
              var n := Min(|list|, MAX_CPUS);
              Recorded(info, list, n) && info.cpuCount == if n > 0 then n else old(info.cpuCount)
    ensures info.Table() == Published(t, old(info.Table()))
  {
    var len := TableLength(t);
    if len < HEADER {
      return;
    }
    var ok := ChecksumOk(t, len);
    if !ok {
      return;
    }
    var found := WalkStructures(info, t, len);
    if found > 0 {
      info.cpuCount := found;
    }
  }

  /** The loop of parse_madt. */
  method WalkStructures(info: BootInfo, t: seq<Byte>, len: nat) returns (found: nat)
    requires info.Valid() && HEADER <= len <= |t|
    modifies info.cpus
    ensures found == Min(|Cpus(Split(t[HEADER..len]))|, MAX_CPUS)
    ensures Recorded(info, Cpus(Split(t[HEADER..len])), found)
  {
    var ics := HEADER;
    found := 0;
    ghost var done: seq<seq<Byte>> := [];
    while ics + 2 <= len
      invariant At(t, len, ics, done, found)
      invariant Recorded(info, Cpus(done), found)
      decreases len - ics
    {
      var n := t[ics + 1];
      if n == 0 {
        break;
      }
      if ics + n > len {
        break;
      }
      found := RecordStructure(info, t, len, ics, n, found, done);
      done := done + [t[ics..ics + n]];
      ics := ics + n;
    }
    AtEnd(t, len, ics, done, found);
  }

  /** The body of the loop, on a structure that lies inside the table. */
  method RecordStructure(info: BootInfo, t: seq<Byte>, len: nat, ics: nat, n: nat, found: nat, ghost done: seq<seq<Byte>>)
    returns (found': nat)
    requires info.Valid() && At(t, len, ics, done, found)
    requires ics + 2 <= len && n == t[ics + 1] && 0 < n && ics + n <= len
    modifies info.cpus
    ensures At(t, len, ics + n, done + [t[ics..ics + n]], found')
    ensures found <= found' && (found' > found ==> info.cpus[found] == Cpus(done + [t[ics..ics + n]])[found])
    ensures forall k :: 0 <= k < MAX_CPUS && !(found <= k < found') ==> info.cpus[k] == old(info.cpus[k])
    ensures found' <= found + 1 && Cpus(done) <= Cpus(done + [t[ics..ics + n]])
  {
    AtNext(t, len, ics, done, found, n);
    ghost var s := t[ics..ics + n];
    found' := found;
    if t[ics] == 0 && n >= 8 {
      var flags := LittleEndian(t[ics + 4..ics + 8]);
      SliceOfSlice(t, ics, ics + n, 4, 8);
      if flags % 2 == 1 && found < MAX_CPUS {
        info.cpus[found] := Cpu(t[ics + 2], t[ics + 3], 0, 0);
        found' := found + 1;
      }
    }
  }

  lemma AfterHeader(header: seq<Byte>, body: seq<Byte>)
    ensures (header + body)[|header|..|header + body|] == body
  {
  }

  /**
   A table that serialises well-formed structures behind its 44-byte header and sums to zero
   publishes exactly the first 64 enabled processors of the list, in order.
   */
  lemma SerialisedTable(header: seq<Byte>, list: seq<seq<Byte>>, t: seq<Byte>, before: CpuTable)
    requires |header| == HEADER && t == header + Serialise(list)
    requires forall i :: 0 <= i < |list| ==> WellFormed(list[i])
    requires TableLength(t) == |t| && Sum(t) % 256 == 0 && |before.cpus| == MAX_CPUS
    ensures Published(t, before) == Overlay(Cpus(list), before)
  {
    assert t[..|t|] == t;
    AfterHeader(header, Serialise(list));
    SplitSerialise(list);
  }

  // ---------------------------------------------------------------- tables of typed structures

  /** An interrupt controller structure: a Processor Local APIC (type 0), or any other type. */
  datatype Ics = LocalApic(processorUid: Byte, apicId: Byte, flags: nat) | Other(octets: seq<Byte>)

  predicate ValidIcs(x: Ics) {
    match x
    case LocalApic(_, _, flags) => flags < TWO32
    case Other(b) => WellFormed(b) && b[0] != 0
  }

  /** Its octets: type, length, processor UID, APIC ID, flags. */
  function OctetsOf(x: Ics): seq<Byte> {
    match x
    case LocalApic(uid, apic, flags) => [0, 8, uid, apic] + Octets(flags, 4)
    case Other(b) => b
  }

  function AllOctets(list: seq<Ics>): (r: seq<seq<Byte>>)
    ensures |r| == |list|
  {
    seq(|list|, i requires 0 <= i < |list| => OctetsOf(list[i]))
  }

  /** The processors whose enabled flag, bit 0, is set. */
  function EnabledIn(list: seq<Ics>): seq<Cpu>
    decreases |list|
  {
    if list == [] then []
    else (if list[0].LocalApic? && list[0].flags % 2 == 1 then [Cpu(list[0].processorUid, list[0].apicId, 0, 0)] else [])
         + EnabledIn(list[1..])
  }

  lemma IcsRead(x: Ics)
    requires ValidIcs(x)
    ensures WellFormed(OctetsOf(x))
    ensures EnabledCpu(OctetsOf(x)) <==> x.LocalApic? && x.flags % 2 == 1
    ensures x.LocalApic? ==> CpuOf(OctetsOf(x)) == Cpu(x.processorUid, x.apicId, 0, 0)
  {
    if x.LocalApic? {
      var b := OctetsOf(x);
      assert b[4..8] == Octets(x.flags, 4);
      OctetTail(x.flags, 4);
      assert Pow256(4) == TWO32;
      DivModUnique(x.flags, TWO32, 0, x.flags);
    }
  }

  lemma {:induction false} CpusRead(list: seq<Ics>)
    requires forall i :: 0 <= i < |list| ==> ValidIcs(list[i])
    ensures Cpus(AllOctets(list)) == EnabledIn(list)
    decreases |list|
  {
    if list != [] {
      IcsRead(list[0]);
      assert AllOctets(list)[1..] == AllOctets(list[1..]);
      CpusRead(list[1..]);
    }
  }

  /** A table that is too short for its header or does not sum to zero publishes nothing. */
  lemma BadTableIgnored(t: seq<Byte>, before: CpuTable)
    requires |t| >= 8 && TableLength(t) <= |t| && |before.cpus| == 64
    requires TableLength(t) < 44 || Sum(t[..TableLength(t)]) % 256 != 0
    ensures Published(t, before) == before
  {
  }

  /**
   The first 64 enabled processors of a table are published, each with its own UID and APIC ID,
   in table order; the rest of the processor table stays, and so does the count if there is none.
   */
  lemma ProcessorsPublished(header: seq<Byte>, list: seq<Ics>, t: seq<Byte>, before: CpuTable)
    requires forall i :: 0 <= i < |list| ==> ValidIcs(list[i])
    requires |header| == 44 && t == header + Serialise(AllOctets(list)) && |t| < TWO32
    requires header[4..8] == Octets(|t|, 4) && Sum(t) % 256 == 0 && |before.cpus| == 64
    ensures TableLength(t) == |t|
    ensures var found, r := EnabledIn(list), Published(t, before);
            && r.count == (if found == [] then before.count else Min(|found|, 64))
            && |r.cpus| == 64
            && forall k :: 0 <= k < 64 ==> r.cpus[k] == if k < |found| then found[k] else before.cpus[k]
  {
    assert t[4..8] == header[4..8];
    OctetTail(|t|, 4);
    assert Pow256(4) == TWO32;
    DivModUnique(|t|, TWO32, 0, |t|);
    forall i | 0 <= i < |list|
      ensures WellFormed(AllOctets(list)[i])
    {
      IcsRead(list[i]);
    }
    SerialisedTable(header, AllOctets(list), t, before);
    CpusRead(list);
  }
}
