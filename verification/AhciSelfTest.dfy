/**
 The AHCI boot self-test: it borrows sector 1 of the first disk to check the write path
 and must give it back on a disk that carries a partition table.  Every command may
 fail, and a failed write may leave anything in its sector.
 */
module AhciSelfTest {
  import opened Bytes

  type Sector = s: seq<Byte> | |s| == 512 witness seq(512, _ => 0)

  const EFI_PART: seq<Byte> := [0x45, 0x46, 0x49, 0x20, 0x50, 0x41, 0x52, 0x54]
  const AURALHCI: seq<Byte> := [0x41, 0x55, 0x52, 0x41, 0x4C, 0x48, 0x43, 0x49]
  const AURALAHCI_WRITE: seq<Byte> :=
    [0x41, 0x55, 0x52, 0x41, 0x4C, 0x41, 0x48, 0x43, 0x49, 0x2D, 0x57, 0x52, 0x49, 0x54, 0x45]

  /** A write either lands or fails leaving `left` in the sector. */
  datatype WriteOutcome = Good | Bad(left: Sector)

  /** The outcome of each command of one self-test, in program order. */
  datatype Outcomes = Outcomes(readMbr: bool, readHeader: bool, save: bool, write: WriteOutcome,
                               readback: bool, restore: WriteOutcome, recheck: bool)

  datatype Report = Unreadable | Blank | NoMarker | SaveFailed | RestoreFailed | RestoreMismatch | Failed | Pass

  predicate HasSignature(mbr: Sector) {
    mbr[510] == 0x55 && mbr[511] == 0xAA
  }

  /** Some primary entry of the MBR has a non-zero type. */
  predicate HasEntries(mbr: Sector) {
    exists e: nat :: e < 4 && mbr[0x1BE + e * 16 + 4] != 0
  }

  predicate IsGptHeader(s: Sector) {
    s[..8] == EFI_PART
  }

  predicate IsScratch(mbr: Sector) {
    HasSignature(mbr) && mbr[..8] == AURALHCI
  }

  /** The disk carries a GPT header or a signed MBR with an entry. */
  predicate HasTable(mbr: Sector, second: Sector) {
    IsGptHeader(second) || (HasSignature(mbr) && HasEntries(mbr))
  }

  /** The table that the test notices: a GPT header it could read, or an entry of a signed MBR. */
  predicate Noticed(mbr: Sector, second: Sector, o: Outcomes) {
    (o.readHeader && IsGptHeader(second)) || (HasSignature(mbr) && HasEntries(mbr))
  }

  predicate IsBlank(s: Sector) {
    forall i :: 0 <= i < 512 ==> s[i] == 0
  }

  /** The test gets as far as writing: a readable disk with a table it could save, or the scratch disk. */
  predicate Proceeds(mbr: Sector, second: Sector, o: Outcomes) {
    o.readMbr && !IsBlank(mbr) && if Noticed(mbr, second, o) then o.save else IsScratch(mbr)
  }

  /** The report of a test that does not get as far as writing. */
  predicate StopsWith(mbr: Sector, second: Sector, o: Outcomes, report: Report) {
    && (report.Unreadable? <==> !o.readMbr)
    && (report.Blank? <==> o.readMbr && IsBlank(mbr))
    && (report.NoMarker? <==> o.readMbr && !IsBlank(mbr) && !Noticed(mbr, second, o) && !IsScratch(mbr))
    && (report.SaveFailed? <==> o.readMbr && !IsBlank(mbr) && Noticed(mbr, second, o) && !o.save)
  }

  /** The report of a test that has written. */
  predicate EndsWith(noticed: bool, o: Outcomes, report: Report) {
    && (report.RestoreFailed? <==> noticed && o.restore.Bad?)
    && (report.RestoreMismatch? <==> noticed && o.restore.Good? && !o.recheck)
    && (report.Pass? <==> o.write.Good? && o.readback && (noticed ==> o.restore.Good? && o.recheck))
    && !report.Unreadable? && !report.Blank? && !report.NoMarker? && !report.SaveFailed?
  }

  /** The four type bytes of a master boot record. */
  lemma EntryOffsets(mbr: Sector)
    ensures HasEntries(mbr) <==> mbr[450] != 0 || mbr[466] != 0 || mbr[482] != 0 || mbr[498] != 0
  {
    assert mbr[450] != 0 ==> mbr[0x1BE + 0 * 16 + 4] != 0;
    assert mbr[466] != 0 ==> mbr[0x1BE + 1 * 16 + 4] != 0;
    assert mbr[482] != 0 ==> mbr[0x1BE + 2 * 16 + 4] != 0;
    assert mbr[498] != 0 ==> mbr[0x1BE + 3 * 16 + 4] != 0;
  }

  /** The three texts the test compares with or writes. */
  lemma MarkersSpelt()
    ensures EFI_PART == Ascii("EFI PART") && AURALHCI == Ascii("AURALHCI")
    ensures Pattern()[..15] == Ascii("AURALAHCI-WRITE") && Pattern()[510] == 0x55 && Pattern()[511] == 0xAA
    ensures forall i :: 15 <= i < 510 ==> Pattern()[i] == 0
  {
    assert Pattern()[..15] == AURALAHCI_WRITE;
  }

  /** A GPT whose header could not be read, under an MBR that looks like the scratch disk's. */
  predicate Overlooked(mbr: Sector, second: Sector, o: Outcomes) {
    && o.readMbr && !o.readHeader && IsGptHeader(second)
    && IsScratch(mbr) && !HasEntries(mbr)
  }

  /** The cases in which the self-test promises to give sector 1 back. */
  predicate Kept(mbr: Sector, second: Sector, o: Outcomes) {
    HasTable(mbr, second) && o.restore.Good? && !Overlooked(mbr, second, o)
  }

  /**
   The promise cannot be widened: the excluded case destroys a GPT header whenever the
   scratch write lands.
   */
  lemma OverlookedDestroys(mbr: Sector, second: Sector, o: Outcomes)
    requires Overlooked(mbr, second, o)
    ensures HasTable(mbr, second) && Pattern() != second
  {
    assert Pattern()[0] == AURALAHCI_WRITE[0] && second[0] == second[..8][0];
  }

  /** Such a disk exists: the scratch marker without entries, a GPT header, and one failed read. */
  lemma OverlookedHappens() returns (mbr: Sector, second: Sector, o: Outcomes)
    ensures Overlooked(mbr, second, o) && o.write.Good? && o.restore.Good?
    ensures mbr == AURALHCI + seq(502, _ => 0) + [0x55, 0xAA] && second == EFI_PART + seq(504, _ => 0)
  {
    mbr := AURALHCI + seq(502, _ => 0) + [0x55, 0xAA];
    second := EFI_PART + seq(504, _ => 0);
    o := Outcomes(true, false, true, Good, true, Good, true);
    assert mbr[..8] == AURALHCI && second[..8] == EFI_PART;
  }

  function Pattern(): Sector {
    AURALAHCI_WRITE + seq(495, _ => 0) + [0x55, 0xAA]
  }

  class Disk {
    var sectors: seq<Sector>

    constructor (s: seq<Sector>)
      ensures sectors == s
    {
      sectors := s;
    }

    method Read(lba: nat, ok: bool, buf: Sector) returns (rc: int, out: Sector)
      requires lba < |sectors|
      ensures ok ==> rc == 0 && out == sectors[lba]
      ensures !ok ==> rc == -1 && out == buf
    {
      if ok {
        return 0, sectors[lba];
      }
      return -1, buf;
    }

    method Write(lba: nat, outcome: WriteOutcome, buf: Sector) returns (rc: int)
      requires lba < |sectors|
      modifies this
      ensures sectors == old(sectors)[lba := if outcome.Good? then buf else outcome.left]
      ensures rc == if outcome.Good? then 0 else -1
    {
      if outcome.Good? {
        sectors := sectors[lba := buf];
        return 0;
      }
      sectors := sectors[lba := outcome.left];
      return -1;
    }

    /** The loop over the four MBR entries. */
    static method AnyEntry(mbr: Sector, known: bool) returns (found: bool)
      ensures found <==> known || HasEntries(mbr)
    {
      found := known;
      var e: nat := 0;
      while e < 4 && !found
        invariant e <= 4
        invariant found ==> known || HasEntries(mbr)
        invariant known ==> found
        invariant !found ==> forall k: nat :: k < e ==> mbr[0x1BE + k * 16 + 4] == 0
      {
        if mbr[0x1BE + e * 16 + 4] != 0 {
          found := true;
        }
        e := e + 1;
      }
    }

    /** The scan for a non-zero byte in sector 0. */
    static method AllZero(s: Sector) returns (blank: bool)
      ensures blank <==> IsBlank(s)
    {
      blank := true;
      var i := 0;
      while i < 512
        invariant 0 <= i <= 512
        invariant blank <==> forall k :: 0 <= k < i ==> s[k] == 0
      {
        if s[i] != 0 {
          blank := false;
          break;
        }
        i := i + 1;
      }
    }

    /** The second half of ahci_self_test: write the pattern, read it back, restore. */
    method Exercise(o: Outcomes, partitioned: bool, saved: Sector) returns (report: Report, writes: seq<nat>)
      requires |sectors| >= 2
      modifies this
      ensures sectors == old(sectors)[1 :=
                if partitioned then (if o.restore.Good? then saved else o.restore.left)
                else if o.write.Good? then Pattern() else o.write.left]
      ensures writes == if partitioned then [1, 1] else [1]
      ensures EndsWith(partitioned, o, report)
    {
      var wbuf := Pattern();
      var rc;
      var verifyOk := true;
      rc := Write(1, o.write, wbuf);
      writes := [1];
      if rc != 0 {
        verifyOk := false;
      }
      if verifyOk {
        var rbuf;
        rc, rbuf := Read(1, o.readback, seq(512, _ => 0));
        if rc != 0 {
          verifyOk := false;
        } else if wbuf != rbuf {
          verifyOk := false;
        }
      }
      if partitioned {
        rc := Write(1, o.restore, saved);
        writes := writes + [1];
        if rc != 0 {
          return RestoreFailed, writes;
        }
        var rbuf;
        rc, rbuf := Read(1, o.recheck, seq(512, _ => 0));
        if rc != 0 || saved != rbuf {
          return RestoreMismatch, writes;
        }
      }
      if !verifyOk {
        return Failed, writes;
      }
      return Pass, writes;
    }

    /**
     ahci_self_test on the chosen port.  `writes` lists the sectors written.

     Whatever fails, only sector 1 is ever written, and only on a disk with a partition
     table or the scratch marker.  On a disk with a table sector 1 comes back as found,
     provided the restore succeeded, except in the one case `Overlooked`, where the scratch
     pattern replaces the header.
     */
    method SelfTest(o: Outcomes) returns (report: Report, writes: seq<nat>)
      requires |sectors| >= 2
      modifies this
      ensures |sectors| == |old(sectors)|
      ensures forall i :: 0 <= i < |sectors| && i != 1 ==> sectors[i] == old(sectors[i])
      ensures forall k :: 0 <= k < |writes| ==> writes[k] == 1
      ensures writes != [] ==> HasTable(old(sectors[0]), old(sectors[1])) || IsScratch(old(sectors[0]))
      ensures writes == [] ==> sectors == old(sectors)
      ensures Kept(old(sectors[0]), old(sectors[1]), o) ==> sectors[1] == old(sectors[1])
      ensures Overlooked(old(sectors[0]), old(sectors[1]), o) ==>
                sectors[1] == if o.write.Good? then Pattern() else o.write.left
      ensures HasTable(old(sectors[0]), old(sectors[1])) && o.restore.Good? ==>
                (sectors[1] == old(sectors[1]) <==>
                   !Overlooked(old(sectors[0]), old(sectors[1]), o) || (o.write.Bad? && o.write.left == old(sectors[1])))
      ensures report.Pass? ==> o.readMbr && o.write.Good? && o.readback
      ensures report.Pass? && HasTable(old(sectors[0]), old(sectors[1])) ==>
                Overlooked(old(sectors[0]), old(sectors[1]), o) || (o.save && o.restore.Good? && o.recheck)
      ensures writes == if !Proceeds(old(sectors[0]), old(sectors[1]), o) then []
                        else if Noticed(old(sectors[0]), old(sectors[1]), o) then [1, 1] else [1]
      ensures StopsWith(old(sectors[0]), old(sectors[1]), o, report)
      ensures Proceeds(old(sectors[0]), old(sectors[1]), o) ==>
                EndsWith(Noticed(old(sectors[0]), old(sectors[1]), o), o, report)
    {
      writes := [];
      var rc, mbr := Read(0, o.readMbr, seq(512, _ => 0));
      if rc != 0 {
        return Unreadable, writes;
      }
      var hasSig := mbr[510] == 0x55 && mbr[511] == 0xAA;
      var blank := AllZero(mbr);
      if blank {
        return Blank, writes;
      }

      var header;
      rc, header := Read(1, o.readHeader, seq(512, _ => 0));
      var partitioned := rc == 0 && header[..8] == EFI_PART;
      if hasSig {
        partitioned := AnyEntry(mbr, partitioned);
      }
      if !partitioned && !(hasSig && mbr[..8] == AURALHCI) {
        return NoMarker, writes;
      }

      var saved: Sector := seq(512, _ => 0);
      if partitioned {
        rc, saved := Read(1, o.save, saved);
        if rc != 0 {
          return SaveFailed, writes;
        }
      }

      report, writes := Exercise(o, partitioned, saved);
      if Overlooked(old(sectors[0]), old(sectors[1]), o) {
        OverlookedDestroys(old(sectors[0]), old(sectors[1]), o);
      }
    }
  }
}
