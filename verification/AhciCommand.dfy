/**
 How ahci_read and ahci_write turn a request into an AHCI command: the length check,
 the C truncations on the way, and the bytes of the register FIS and PRDT entry that
 the device reads back.
 */
module AhciCommand {
  import opened Bytes
  import opened Arithmetic
  import opened Memory

  const SECTOR := 512
  const DMA_BYTES := 0x2_0000
  const MAX_PORTS := 32
  const TWO23: int := 0x80_0000

  /** A call of ahci_read or ahci_write; `data` is the caller's buffer for a write. */
  datatype Request = Request(write: bool, port: nat, lba: nat, count: nat, data: seq<Byte>)

  predicate ValidRequest(r: Request) {
    && r.lba < TWO64 && r.count < TWO32 && r.port < TWO32
    && (r.write ==> |r.data| == r.count * SECTOR)
  }

  /** `uint32_t len = count * AHCI_SECTOR_SIZE`. */
  function Len(count: nat): nat {
    (count * SECTOR) % TWO32
  }

  /** The entry checks that return -1 before the port lock is taken. */
  predicate Admitted(r: Request, present: seq<bool>) {
    r.port < MAX_PORTS && r.port < |present| && present[r.port] && r.count != 0 && Len(r.count) <= DMA_BYTES
  }

  /**
   What the driver puts into memory for one command: the register FIS, the PRDT entry's address
   and byte count, and the command header's two half words.
   */
  datatype Command = Command(fis: seq<Byte>, dba: nat, dbau: nat, dbc: nat, info: nat, prdtl: nat)

  const ATA_READ_DMA_EXT: Byte := 0x25
  const ATA_WRITE_DMA_EXT: Byte := 0x35

  /** ahci_exec fills the table; its `count` parameter is a uint16_t, `buf` the bounce buffer's address. */
  function BuildCommand(write: bool, lba: nat, count: nat, buf: nat, len: nat): Command
    requires 0 < len
  {
    Command([0x27, 0x80, if write then ATA_WRITE_DMA_EXT else ATA_READ_DMA_EXT, 0,
             Octet(lba, 0), Octet(lba, 1), Octet(lba, 2), 0x40,
             Octet(lba, 3), Octet(lba, 4), Octet(lba, 5), 0,
             Octet(count % TWO16, 0), Octet(count % TWO16, 1), 0, 0,
             0, 0, 0, 0],
            buf % TWO32, buf / TWO32, (len - 1) % 0x40_0000,
            if write then 5 + 64 else 5, 1)
  }

  // What the device makes of the command, in the terms of Serial ATA and AHCI.

  /** A register host-to-device FIS of five double words with the command bit, in LBA mode, and one PRDT entry. */
  predicate IsCommand(c: Command) {
    && |c.fis| == 20 && c.info % 32 == 5 && c.prdtl == 1
    && c.fis[0] == 0x27 && c.fis[1] / 128 == 1 && c.fis[7] / 64 % 2 == 1
  }

  /** Whether the command writes, by its opcode; None if it is no transfer or the header's W bit disagrees. */
  function Direction(c: Command): Option<bool>
    requires IsCommand(c)
  {
    if c.fis[2] == 0x35 && c.info / 64 % 2 == 1 then Some(true)
    else if c.fis[2] == 0x25 && c.info / 64 % 2 == 0 then Some(false)
    else None
  }

  /** 48-bit address. */
  function DeviceLba(c: Command): nat
    requires IsCommand(c)
  {
    LittleEndian([c.fis[4], c.fis[5], c.fis[6], c.fis[8], c.fis[9], c.fis[10]])
  }

  /** 16-bit count, 0 meaning 65536. */
  function DeviceSectors(c: Command): nat
    requires IsCommand(c)
  {
    var low: int, high: int := c.fis[12], c.fis[13];
    if low + 256 * high == 0 then 65536 else low + 256 * high
  }

  /** Byte length, coded less one, and address of the one PRDT entry. */
  function DeviceBytes(c: Command): nat {
    c.dbc + 1
  }

  function DeviceBuffer(c: Command): nat {
    c.dba + 0x1_0000_0000 * c.dbau
  }

  /** Six octets carry the low 48 bits of the address. */
  lemma LbaOctets(lba: nat)
    ensures LittleEndian([Octet(lba, 0), Octet(lba, 1), Octet(lba, 2), Octet(lba, 3), Octet(lba, 4), Octet(lba, 5)])
         == lba % TWO48
  {
    OctetTail(lba, 6);
    var o := [Octet(lba, 0), Octet(lba, 1), Octet(lba, 2), Octet(lba, 3), Octet(lba, 4), Octet(lba, 5)];
    assert Octets(lba, 6) == o;
  }

  /** An admitted request keeps only the low 23 bits of its sector count. */
  lemma AdmittedCount(r: Request, present: seq<bool>)
    requires ValidRequest(r) && Admitted(r, present)
    ensures Len(r.count) == SECTOR * (r.count % TWO23)
    ensures r.count % TWO16 == r.count % TWO23 <= 256
  {
    assert r.count == TWO23 * (r.count / TWO23) + r.count % TWO23;
    DivModUnique(r.count * SECTOR, TWO32, r.count / TWO23, SECTOR * (r.count % TWO23));
    assert r.count == TWO16 * (128 * (r.count / TWO23)) + r.count % TWO23;
    DivModUnique(r.count, TWO16, 128 * (r.count / TWO23), r.count % TWO23);
  }

  /** Below 2^23 sectors, where the length does not wrap, the entry checks admit 1 to 256 sectors on a present port. */
  lemma AdmittedExactly(r: Request, present: seq<bool>)
    requires ValidRequest(r) && |present| == 32 && r.count < TWO23
    ensures Admitted(r, present) <==> r.port < 32 && present[r.port] && 1 <= r.count <= 256
  {
    DivModUnique(r.count * SECTOR, TWO32, 0, r.count * SECTOR);
  }

  /**
   The device reads back a command, the driver's direction, address, sector count, byte length
   and buffer: opcode 0x35 for a write, 0x25 for a read.
   */
  lemma CommandRoundTrip(r: Request, present: seq<bool>, buf: nat)
    requires ValidRequest(r) && Admitted(r, present) && Len(r.count) > 0
    ensures var c := BuildCommand(r.write, r.lba, r.count, buf, Len(r.count));
            && IsCommand(c) && Direction(c) == Some(r.write) && c.fis[2] == (if r.write then 0x35 else 0x25)
            && DeviceLba(c) == r.lba % TWO48
            && DeviceSectors(c) == r.count % TWO23
            && DeviceBytes(c) == Len(r.count) == SECTOR * DeviceSectors(c)
            && DeviceBuffer(c) == buf
  {
    LbaOctets(r.lba);
    AdmittedCount(r, present);
    CountOctets(r.count % TWO16);
  }

  lemma CountOctets(n: nat)
    requires n < TWO16
    ensures Octet(n, 0) as int + 256 * Octet(n, 1) as int == n
  {
    assert Octet(n, 1) == Octet(n / 256, 0);
  }

  /**
   The transfer that an admitted request performs is the one the caller asked for exactly
   when the address fits 48 bits and the count is below 2^23; beyond that the request is
   served with a truncated address or count, or refused when the length wraps to zero.
   */
  lemma TransferIsWhatWasAsked(r: Request, present: seq<bool>, buf: nat)
    requires ValidRequest(r) && Admitted(r, present)
    ensures Len(r.count) == 0 ==> r.count >= TWO23
    ensures Len(r.count) > 0 ==>
              var c := BuildCommand(r.write, r.lba, r.count, buf, Len(r.count));
              && IsCommand(c)
              && (DeviceLba(c) == r.lba && DeviceSectors(c) == r.count && DeviceBytes(c) == r.count * SECTOR
                  <==> r.lba < TWO48 && r.count < TWO23)
  {
    AdmittedCount(r, present);
    if Len(r.count) > 0 {
      CommandRoundTrip(r, present, buf);
    }
  }

  /** A request for 2^23 + 1 sectors passes the length check and moves one sector. */
  lemma WrappedCountIsAdmitted(present: seq<bool>)
    requires |present| == MAX_PORTS && present[0]
    ensures var r := Request(false, 0, 0, TWO23 + 1, []);
            ValidRequest(r) && Admitted(r, present) && Len(r.count) == SECTOR != r.count * SECTOR
  {
  }
}
