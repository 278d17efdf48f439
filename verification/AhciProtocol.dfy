/**
 Concurrent AHCI transfers.  Each port has one lock, one command slot and one bounce
 buffer; any number of threads read and write any ports.  Threads and devices move one
 step at a time: a device moves an arbitrary number of bytes per step, and may report
 an error at any point, leaving the target of the transfer in any state.
 */
module AhciProtocol {
  import opened Bytes
  import opened AhciCommand

  /** The bytes a request moves and where they start on the disk. */
  function Size(r: Request): nat {
    Len(r.count)
  }

  function Base(r: Request): nat {
    r.lba % TWO48 * SECTOR
  }

  datatype Pc =
    | Idle
    | Entered(r: Request)                                // about to take the port lock
    | Holding(r: Request)                                // lock taken
    | Filled(r: Request)                                 // bounce buffer ready, about to run ahci_exec
    | Issued(r: Request)                                 // polling
    | Completed(r: Request, rc: int)                     // ahci_exec has returned
    | Copied(r: Request, rc: int, out: seq<Byte>)        // about to release the lock

  predicate HoldsLock(pc: Pc) {
    !pc.Idle? && !pc.Entered?
  }

  /** A finished call, in lock order.  `data` is what a read delivered or what a write left in its target. */
  datatype Event = Event(thread: nat, r: Request, rc: int, data: seq<Byte>)

  /** A command as the device understands it: disk offset, byte length, direction. */
  datatype Transfer = Transfer(off: nat, size: nat, write: bool)

  /** None if the device would not carry the command out with the memory at `dma`. */
  function Decode(c: Command, dma: nat): Option<Transfer> {
    if !IsCommand(c) || Direction(c).None? || DeviceBytes(c) != SECTOR * DeviceSectors(c) || DeviceBuffer(c) != dma
    then None
    else Some(Transfer(DeviceLba(c) * SECTOR, DeviceBytes(c), Direction(c).value))
  }

  datatype Port = Port(
    disk: seq<Byte>,
    dma: nat,                  // physical address of the bounce buffer
    bounce: seq<Byte>,
    lock: Option<nat>,
    slot: Option<Transfer>,    // PxCI bit 0 and the command behind it, as the device reads it
    progress: nat,             // bytes moved so far
    failed: bool,              // error bits in PxIS and PxTFD
    log: seq<Event>)           // history

  datatype State = State(present: seq<bool>, ports: seq<Port>, pcs: map<nat, Pc>)

  datatype Step =
    | Call(t: nat, r: Request)
    | Acquire(t: nat)
    | CopyIn(t: nat)
    | Exec(t: nat, busy: bool)
    | Move(p: nat, n: nat)                 // device: transfer n more bytes
    | Finish(p: nat)                       // device: complete
    | Abort(p: nat, junk: seq<Byte>)       // device: report an error
    | Poll(t: nat)                         // the command has left the slot
    | TimeOut(t: nat)                      // the poll loop runs dry; the command stays in the slot
    | CopyOut(t: nat)
    | Release(t: nat)

  // ---------------------------------------------------------------- the sequential disk

  predicate InRange(disk: seq<Byte>, off: nat, n: nat) {
    off + n <= |disk|
  }

  /** The disk with `b` written at offset `off`. */
  function Splice(disk: seq<Byte>, off: nat, b: seq<Byte>): (d: seq<Byte>)
    ensures |d| == |disk|
  {
    if InRange(disk, off, |b|) then disk[..off] + b + disk[off + |b|..] else disk
  }

  function Apply(disk: seq<Byte>, e: Event): (d: seq<Byte>)
    ensures |d| == |disk|
  {
    if e.r.write then Splice(disk, Base(e.r), e.data) else disk
  }

  /** A plain sector map that runs the logged calls one after the other. */
  function Replay(disk: seq<Byte>, log: seq<Event>): (d: seq<Byte>)
    ensures |d| == |disk|
    decreases |log|
  {
    if log == [] then disk else Apply(Replay(disk, log[..|log| - 1]), log[|log| - 1])
  }

  /** What one call may return when the sector map holds `disk`. */
  predicate Legal(disk: seq<Byte>, e: Event) {
    var off, n := Base(e.r), Size(e.r);
    if e.rc == 0 then
      && InRange(disk, off, n) && n > 0
      && (e.r.write ==> n <= |e.r.data| && e.data == e.r.data[..n])
      && (!e.r.write ==> e.data == disk[off..off + n])
    else
      e.rc == -1 && (e.r.write ==> |e.data| <= n) && (!e.r.write ==> e.data == [])
  }

  predicate LegalLog(disk: seq<Byte>, log: seq<Event>) {
    forall i :: 0 <= i < |log| ==> Legal(Replay(disk, log[..i]), log[i])
  }

  // ---------------------------------------------------------------- steps

  function PcOf(s: State, t: nat): Pc {
    if t in s.pcs then s.pcs[t] else Idle
  }

  /** A request that has passed the entry checks. */
  predicate Live(present: seq<bool>, r: Request) {
    ValidRequest(r) && Admitted(r, present)
  }

  predicate ValidState(s: State) {
    && |s.present| == MAX_PORTS && |s.ports| == MAX_PORTS
    && (forall p :: 0 <= p < MAX_PORTS ==> |s.ports[p].bounce| == DMA_BYTES)
    && (forall t :: t in s.pcs && !s.pcs[t].Idle? ==> Live(s.present, s.pcs[t].r))
  }

  predicate CanMove(q: Port, c: Transfer, n: nat) {
    q.progress + n <= c.size <= |q.bounce| && InRange(q.disk, c.off, c.size)
  }

  /** The steps that a thread takes with, or into, the port lock. */
  predicate ThreadEnabled(a: Step, pc: Pc, q: Port) {
    match a
    case Acquire(_) => pc.Entered? && q.lock.None?
    case CopyIn(_) => pc.Holding? && pc.r.write
    case Exec(_, busy) => (pc.Filled? || (pc.Holding? && !pc.r.write)) && (busy || q.slot.None?)
    case Poll(_) => pc.Issued? && q.slot.None?
    case TimeOut(_) => pc.Issued? && q.slot.Some?
    case CopyOut(_) => pc.Completed?
    case Release(_) => pc.Copied?
    case _ => false
  }

  /** The steps that a device with a command in its slot may take. */
  predicate DeviceEnabled(a: Step, q: Port) {
    && q.slot.Some?
    && match a
       case Move(_, n) => CanMove(q, q.slot.value, n)
       case Finish(_) => q.progress == q.slot.value.size
       case Abort(_, junk) => |junk| == q.slot.value.size
       case _ => false
  }

  predicate Enabled(s: State, a: Step)
    requires ValidState(s)
  {
    if a.Call? then
      PcOf(s, a.t).Idle? && Live(s.present, a.r)
    else if a.Move? || a.Finish? || a.Abort? then
      a.p < MAX_PORTS && DeviceEnabled(a, s.ports[a.p])
    else
      !PcOf(s, a.t).Idle? && ThreadEnabled(a, PcOf(s, a.t), s.ports[PcOf(s, a.t).r.port])
  }

  /** The device copies `n` bytes between the disk and the bounce buffer. */
  function MoveBytes(q: Port, c: Transfer, n: nat): Port
    requires CanMove(q, c, n)
  {
    var off := c.off + q.progress;
    if c.write
    then q.(disk := Splice(q.disk, off, q.bounce[q.progress..q.progress + n]), progress := q.progress + n)
    else q.(bounce := Splice(q.bounce, q.progress, q.disk[off..off + n]), progress := q.progress + n)
  }

  /** The device gives up, having scribbled over whatever it was transferring into. */
  function AbortPort(q: Port, c: Transfer, junk: seq<Byte>): Port {
    var q' := q.(slot := None, failed := true);
    if c.write then q'.(disk := Splice(q.disk, c.off, junk)) else q'.(bounce := Splice(q.bounce, 0, junk))
  }

  /** ahci_exec up to the point where it starts polling; a command that is no transfer fails at once. */
  function ExecPort(q: Port, r: Request): Port {
    if Size(r) == 0 then q else
    var c := Decode(BuildCommand(r.write, r.lba, r.count, q.dma, Size(r)), q.dma);
    q.(slot := c, progress := 0, failed := c.None?)
  }

  /** The transfer a request stands for. */
  function Wanted(r: Request): Transfer {
    Transfer(Base(r), Size(r), r.write)
  }

  /** The part of a write's buffer that is copied into the bounce buffer. */
  function CallerBytes(r: Request): (b: seq<Byte>)
    requires ValidRequest(r) && r.write
    ensures |b| == Size(r)
  {
    assert Len(r.count) <= r.count * SECTOR;
    r.data[..Size(r)]
  }

  /** What the range of a request holds on the disk, if it lies on the disk. */
  function Target(disk: seq<Byte>, r: Request): seq<Byte> {
    if InRange(disk, Base(r), Size(r)) then disk[Base(r)..Base(r) + Size(r)] else []
  }

  function EventOf(t: nat, q: Port, pc: Pc): Event
    requires pc.Copied?
  {
    Event(t, pc.r, pc.rc, if pc.r.write then Target(q.disk, pc.r) else pc.out)
  }

  /** The new pc of the thread and the new state of its port. */
  function ThreadStep(a: Step, t: nat, pc: Pc, q: Port): (Pc, Port)
    requires ThreadEnabled(a, pc, q) && ValidRequest(pc.r) && Size(pc.r) <= DMA_BYTES == |q.bounce|
  {
    var r := pc.r;
    match a
    case Acquire(_) => (Holding(r), q.(lock := Some(t)))
    case CopyIn(_) => (Filled(r), q.(bounce := Splice(q.bounce, 0, CallerBytes(r))))
    case Exec(_, busy) =>
      if busy || r.count % TWO16 == 0 || Size(r) == 0 then (Completed(r, -1), q) else (Issued(r), ExecPort(q, r))
    case Poll(_) => (Completed(r, if q.failed then -1 else 0), q)
    case TimeOut(_) => (Completed(r, -1), q)
    case CopyOut(_) => (Copied(r, pc.rc, if pc.rc == 0 && !r.write then q.bounce[..Size(r)] else []), q)
    case Release(_) => (Idle, q.(lock := None, log := q.log + [EventOf(t, q, pc)]))
  }

  function DeviceStep(a: Step, q: Port): Port
    requires DeviceEnabled(a, q)
  {
    match a
    case Move(_, n) => MoveBytes(q, q.slot.value, n)
    case Finish(_) => q.(slot := None)
    case Abort(_, junk) => AbortPort(q, q.slot.value, junk)
  }

  function Next(s: State, a: Step): State
    requires ValidState(s)
  {
    if !Enabled(s, a) then s
    else if a.Call? then s.(pcs := s.pcs[a.t := Entered(a.r)])
    else if a.Move? || a.Finish? || a.Abort? then s.(ports := s.ports[a.p := DeviceStep(a, s.ports[a.p])])
    else
      var pc := PcOf(s, a.t);
      var (pc', q') := ThreadStep(a, a.t, pc, s.ports[pc.r.port]);
      s.(pcs := s.pcs[a.t := pc'], ports := s.ports[pc.r.port := q'])
  }

  ghost function Run(s: State, steps: seq<Step>): State
    requires ValidState(s)
    decreases |steps|
  {
    if steps == [] then s else
    var r := Run(s, steps[..|steps| - 1]);
    if ValidState(r) then Next(r, steps[|steps| - 1]) else r
  }

  /** After ahci_init: every lock free, every slot empty, no call in progress. */
  predicate Init(s: State) {
    && ValidState(s) && s.pcs == map[]
    && forall p :: 0 <= p < MAX_PORTS ==> s.ports[p].lock.None? && s.ports[p].slot.None? && s.ports[p].log == []
  }

  // ---------------------------------------------------------------- splicing

  lemma SpliceMore(d: seq<Byte>, off: nat, a: seq<Byte>, b: seq<Byte>)
    requires InRange(d, off, |a| + |b|)
    ensures Splice(Splice(d, off, a), off + |a|, b) == Splice(d, off, a + b)
  {
  }

  /** A later write of at least the same extent hides the earlier one. */
  lemma SpliceOver(d: seq<Byte>, off: nat, a: seq<Byte>, b: seq<Byte>)
    requires |a| <= |b| && (a == [] || InRange(d, off, |b|))
    ensures Splice(Splice(d, off, a), off, b) == Splice(d, off, b)
  {
    if a == [] {
      SpliceNothing(d, off);
    }
  }

  lemma SpliceNothing(d: seq<Byte>, off: nat)
    ensures Splice(d, off, []) == d
  {
  }

  lemma SpliceBack(d: seq<Byte>, off: nat, n: nat)
    requires InRange(d, off, n)
    ensures Splice(d, off, d[off..off + n]) == d
  {
  }

  lemma SpliceAt(d: seq<Byte>, off: nat, b: seq<Byte>)
    requires InRange(d, off, |b|)
    ensures Splice(d, off, b)[off..off + |b|] == b
  {
  }

  // ---------------------------------------------------------------- time-outs

  /**
   A time-out of request `r` hands a live command to the next user of the port: a write that
   lies on the disk can still change it, and a read can still overwrite the bounce buffer of
   a disk that has a sector to transfer.
   */
  predicate Exposed(q: Port, r: Request) {
    if r.write then InRange(q.disk, Base(r), Size(r)) else |q.disk| >= SECTOR
  }

  /** No call gives up on a command that is still in the slot. */
  predicate Patient(steps: seq<Step>) {
    forall i :: 0 <= i < |steps| ==> !steps[i].TimeOut?
  }

  /** Step `a` is no time-out of an exposed request. */
  predicate HarmlessStep(s: State, a: Step)
    requires ValidState(s)
  {
    a.TimeOut? && Enabled(s, a) ==> !Exposed(s.ports[PcOf(s, a.t).r.port], PcOf(s, a.t).r)
  }

  /** Every time-out in the run is of a request that is not exposed at that moment. */
  ghost predicate Harmless(s: State, steps: seq<Step>)
    requires ValidState(s)
    decreases |steps|
  {
    steps == [] ||
    (var before, a := Run(s, steps[..|steps| - 1]), steps[|steps| - 1];
     Harmless(s, steps[..|steps| - 1]) && (ValidState(before) ==> HarmlessStep(before, a)))
  }

  lemma {:induction false} PatientIsHarmless(s: State, steps: seq<Step>)
    requires ValidState(s) && Patient(steps)
    ensures Harmless(s, steps)
    decreases |steps|
  {
    if steps != [] {
      PatientIsHarmless(s, steps[..|steps| - 1]);
    }
  }

  // ---------------------------------------------------------------- invariant of one port

  /** A transfer under way has moved a prefix of the request and nothing else. */
  predicate Running(spec: seq<Byte>, q: Port, r: Request)
    requires |q.bounce| == DMA_BYTES
  {
    var off, n := Base(r), Size(r);
    && !q.failed && q.progress <= n <= DMA_BYTES
    && (q.progress > 0 ==> InRange(spec, off, n))
    && if r.write then
         && n <= |r.data| && q.disk == Splice(spec, off, r.data[..q.progress])
         && (|spec| >= SECTOR ==> q.bounce[..n] == r.data[..n])
       else
         q.disk == spec && (q.progress > 0 ==> q.bounce[..q.progress] == spec[off..off + q.progress])
  }

  /** A transfer that ahci_exec reports as `rc`. */
  predicate Ended(spec: seq<Byte>, q: Port, r: Request, rc: int)
    requires |q.bounce| == DMA_BYTES
  {
    var off, n := Base(r), Size(r);
    if rc == 0 then
      && SECTOR <= n <= DMA_BYTES && InRange(spec, off, n)
      && if r.write then n <= |r.data| && q.disk == Splice(spec, off, r.data[..n])
         else q.disk == spec && q.bounce[..n] == spec[off..off + n]
    else
      && rc == -1 && |q.disk| == |spec|
      && q.disk == if r.write then Splice(spec, off, Target(q.disk, r)) else spec
  }

  /** A command left in the slot by a time-out can no longer do anything but fail, without consequence. */
  predicate Spent(spec: seq<Byte>, q: Port, strict: bool) {
    q.slot.Some? ==>
      && !strict && q.progress == 0 && q.slot.value.size > 0
      && !InRange(spec, q.slot.value.off, q.slot.value.size) && (q.slot.value.write || |spec| < SECTOR)
  }

  /**
   `pc` is where the holder of the port's lock stands, Idle if there is none.  Under `strict`
   there is no abandoned command.
   */
  predicate PortInv(disk: seq<Byte>, q: Port, pc: Pc, strict: bool) {
    && |q.bounce| == DMA_BYTES
    && LegalLog(disk, q.log)
    && var spec := Replay(disk, q.log);
       match pc
       case Idle => Spent(spec, q, strict) && q.disk == spec
       case Entered(r) => false
       case Holding(r) => Spent(spec, q, strict) && q.disk == spec
       case Filled(r) =>
         Spent(spec, q, strict) && q.disk == spec && r.write && Size(r) <= |r.data| && Size(r) <= DMA_BYTES
         && (|spec| >= SECTOR ==> q.bounce[..Size(r)] == r.data[..Size(r)])
       case Issued(r) =>
         && Size(r) >= SECTOR
         && if q.slot.Some? then q.slot.value == Wanted(r) && Running(spec, q, r)
            else Ended(spec, q, r, if q.failed then -1 else 0)
       case Completed(r, rc) => Spent(spec, q, strict) && Ended(spec, q, r, rc)
       case Copied(r, rc, out) =>
         && Spent(spec, q, strict) && Ended(spec, q, r, rc)
         && out == if rc == 0 && !r.write then spec[Base(r)..Base(r) + Size(r)] else []
  }

  lemma ReplayExtend(disk: seq<Byte>, log: seq<Event>, e: Event)
    requires LegalLog(disk, log) && Legal(Replay(disk, log), e)
    ensures Replay(disk, log + [e]) == Apply(Replay(disk, log), e)
    ensures LegalLog(disk, log + [e])
  {
    var log' := log + [e];
    assert log'[..|log|] == log;
    forall i | 0 <= i < |log'|
      ensures Legal(Replay(disk, log'[..i]), log'[i])
    {
      if i < |log| {
        assert log'[..i] == log[..i];
      }
    }
  }

  lemma MoveWrite(spec: seq<Byte>, off: nat, bounce: seq<Byte>, data: seq<Byte>, size: nat, k: nat, n: nat)
    requires k + n <= size <= |bounce| && size <= |data| && bounce[..size] == data[..size] && InRange(spec, off, size)
    ensures Splice(Splice(spec, off, data[..k]), off + k, bounce[k..k + n]) == Splice(spec, off, data[..k + n])
  {
    assert bounce[k..k + n] == bounce[..size][k..k + n] == data[k..k + n];
    assert data[..k] + data[k..k + n] == data[..k + n];
    SpliceMore(spec, off, data[..k], data[k..k + n]);
  }

  lemma MoveRead(spec: seq<Byte>, off: nat, bounce: seq<Byte>, k: nat, n: nat)
    requires k + n <= |bounce| && InRange(spec, off, k + n) && (k > 0 ==> bounce[..k] == spec[off..off + k])
    ensures Splice(bounce, k, spec[off + k..off + k + n])[..k + n] == spec[off..off + k + n]
  {
    var b := spec[off + k..off + k + n];
    assert Splice(bounce, k, b)[..k + n] == bounce[..k] + b;
    assert bounce[..k] == spec[off..off + k];
  }

  lemma MoveInv(strict: bool, disk: seq<Byte>, q: Port, r: Request, n: nat)
    requires PortInv(disk, q, Issued(r), strict) && q.slot.Some? && CanMove(q, q.slot.value, n)
    ensures PortInv(disk, MoveBytes(q, q.slot.value, n), Issued(r), strict)
  {
    if r.write {
      MoveWriteInv(strict, disk, q, r, n);
    } else {
      MoveReadInv(strict, disk, q, r, n);
    }
  }

  lemma MoveWriteInv(strict: bool, disk: seq<Byte>, q: Port, r: Request, n: nat)
    requires PortInv(disk, q, Issued(r), strict) && q.slot.Some? && CanMove(q, q.slot.value, n) && r.write
    ensures PortInv(disk, MoveBytes(q, q.slot.value, n), Issued(r), strict)
  {
    MoveWrite(Replay(disk, q.log), Base(r), q.bounce, r.data, Size(r), q.progress, n);
  }

  lemma MoveReadInv(strict: bool, disk: seq<Byte>, q: Port, r: Request, n: nat)
    requires PortInv(disk, q, Issued(r), strict) && q.slot.Some? && CanMove(q, q.slot.value, n) && !r.write
    ensures PortInv(disk, MoveBytes(q, q.slot.value, n), Issued(r), strict)
  {
    var spec, off, moved := Replay(disk, q.log), Base(r), MoveBytes(q, q.slot.value, n);
    MoveRead(spec, off, q.bounce, q.progress, n);
    assert moved.bounce[..moved.progress] == spec[off..off + moved.progress];
  }

  lemma AbortInv(strict: bool, disk: seq<Byte>, q: Port, r: Request, junk: seq<Byte>)
    requires PortInv(disk, q, Issued(r), strict) && q.slot.Some?
    requires |junk| == q.slot.value.size
    ensures PortInv(disk, AbortPort(q, q.slot.value, junk), Issued(r), strict)
  {
    if r.write {
      var spec := Replay(disk, q.log);
      var after := Splice(q.disk, Base(r), junk);
      if InRange(spec, Base(r), Size(r)) {
        SpliceOver(spec, Base(r), r.data[..q.progress], junk);
        SpliceAt(spec, Base(r), junk);
      } else {
        SpliceNothing(spec, Base(r));
      }
      assert after == Splice(spec, Base(r), Target(after, r));
    }
  }

  lemma FinishInv(strict: bool, disk: seq<Byte>, q: Port, r: Request)
    requires PortInv(disk, q, Issued(r), strict) && q.slot.Some?
    requires q.progress == q.slot.value.size
    ensures PortInv(disk, q.(slot := None), Issued(r), strict)
  {
  }

  lemma ReleaseInv(strict: bool, disk: seq<Byte>, q: Port, t: nat, pc: Pc)
    requires PortInv(disk, q, pc, strict) && pc.Copied?
    ensures PortInv(disk, q.(lock := None, log := q.log + [EventOf(t, q, pc)]), Idle, strict)
  {
    var spec, r := Replay(disk, q.log), pc.r;
    if r.write && pc.rc == 0 {
      SpliceAt(spec, Base(r), r.data[..Size(r)]);
    }
    ReplayExtend(disk, q.log, EventOf(t, q, pc));
  }

  lemma CopyInInv(strict: bool, disk: seq<Byte>, q: Port, r: Request)
    requires PortInv(disk, q, Holding(r), strict) && r.write && Size(r) <= |r.data| && Size(r) <= DMA_BYTES
    ensures PortInv(disk, q.(bounce := Splice(q.bounce, 0, r.data[..Size(r)])), Filled(r), strict)
  {
    SpliceAt(q.bounce, 0, r.data[..Size(r)]);
  }

  /** A command that is never issued leaves the target of a write as it was. */
  lemma RefusedInv(strict: bool, disk: seq<Byte>, q: Port, pc: Pc)
    requires PortInv(disk, q, pc, strict) && (pc.Filled? || (pc.Holding? && !pc.r.write))
    ensures PortInv(disk, q, Completed(pc.r, -1), strict)
  {
    SpliceNothing(q.disk, Base(pc.r));
    if InRange(q.disk, Base(pc.r), Size(pc.r)) {
      SpliceBack(q.disk, Base(pc.r), Size(pc.r));
    }
  }

  lemma IssueInv(strict: bool, present: seq<bool>, disk: seq<Byte>, q: Port, pc: Pc)
    requires PortInv(disk, q, pc, strict) && (pc.Filled? || (pc.Holding? && !pc.r.write))
    requires Live(present, pc.r) && Size(pc.r) > 0
    ensures PortInv(disk, ExecPort(q, pc.r), Issued(pc.r), strict)
  {
    CommandRoundTrip(pc.r, present, q.dma);
    SpliceNothing(q.disk, Base(pc.r));
    assert pc.r.write ==> pc.r.data[..0] == [];
  }

  lemma CopyOutInv(strict: bool, disk: seq<Byte>, q: Port, r: Request, rc: int)
    requires PortInv(disk, q, Completed(r, rc), strict) && Size(r) <= DMA_BYTES
    ensures PortInv(disk, q, Copied(r, rc, if rc == 0 && !r.write then q.bounce[..Size(r)] else []), strict)
  {
  }

  /** Giving up on a request that is not exposed. */
  lemma TimeOutInv(disk: seq<Byte>, q: Port, r: Request)
    requires PortInv(disk, q, Issued(r), false) && q.slot.Some? && !Exposed(q, r)
    ensures PortInv(disk, q, Completed(r, -1), false)
  {
    var spec := Replay(disk, q.log);
    assert |q.disk| == |spec|;
    SpliceNothing(spec, Base(r));
    assert r.write ==> r.data[..0] == [];
  }

  /** A step of the lock holder, or of the thread that takes the lock, keeps the port's invariant. */
  lemma ThreadInv(strict: bool, present: seq<bool>, disk: seq<Byte>, q: Port, a: Step, t: nat, pc: Pc)
    requires ThreadEnabled(a, pc, q) && (a.TimeOut? ==> !strict && !Exposed(q, pc.r)) && Live(present, pc.r) && |q.bounce| == DMA_BYTES
    requires PortInv(disk, q, if pc.Entered? then Idle else pc, strict)
    ensures PortInv(disk, ThreadStep(a, t, pc, q).1, ThreadStep(a, t, pc, q).0, strict)
  {
    AdmittedCount(pc.r, present);
    match a
    case Acquire(_) =>
    case CopyIn(_) => CopyInInv(strict, disk, q, pc.r);
    case Exec(_, busy) =>
      RefusedInv(strict, disk, q, pc);
      if Size(pc.r) > 0 {
        IssueInv(strict, present, disk, q, pc);
      }
    case Poll(_) =>
    case TimeOut(_) => TimeOutInv(disk, q, pc.r);
    case CopyOut(_) => CopyOutInv(strict, disk, q, pc.r, pc.rc);
    case Release(_) => ReleaseInv(strict, disk, q, t, pc);
  }

  // ---------------------------------------------------------------- invariant of the system

  function Holder(s: State, p: nat): Pc
    requires p < |s.ports|
  {
    if s.ports[p].lock.Some? then PcOf(s, s.ports[p].lock.value) else Idle
  }

  /** A thread past the lock owns exactly the port it works on. */
  predicate LockInv(s: State)
    requires ValidState(s)
  {
    && (forall t :: t in s.pcs && HoldsLock(s.pcs[t]) ==> s.ports[s.pcs[t].r.port].lock == Some(t))
    && (forall p :: 0 <= p < MAX_PORTS && s.ports[p].lock.Some? ==>
          HoldsLock(Holder(s, p)) && Holder(s, p).r.port == p)
  }

  ghost predicate Inv(disks: seq<seq<Byte>>, s: State, strict: bool) {
    && |disks| == MAX_PORTS && ValidState(s) && LockInv(s)
    && forall p :: 0 <= p < MAX_PORTS ==> PortInv(disks[p], s.ports[p], Holder(s, p), strict)
  }

  /** A change of one port that keeps its lock changes no lock holder. */
  lemma PortLocks(s: State, p: nat, q: Port)
    requires ValidState(s) && LockInv(s) && p < MAX_PORTS && q.lock == s.ports[p].lock && |q.bounce| == DMA_BYTES
    ensures var s' := s.(ports := s.ports[p := q]);
            ValidState(s') && LockInv(s') && forall x :: 0 <= x < MAX_PORTS ==> Holder(s', x) == Holder(s, x)
  {
    var s' := s.(ports := s.ports[p := q]);
    forall x | 0 <= x < MAX_PORTS
      ensures s'.ports[x].lock == s.ports[x].lock && Holder(s', x) == Holder(s, x)
    {
    }
  }

  /** A change confined to one port and compatible with its lock holder keeps the invariant. */
  lemma PortChange(strict: bool, disks: seq<seq<Byte>>, s: State, p: nat, q: Port)
    requires Inv(disks, s, strict) && p < MAX_PORTS
    requires q.lock == s.ports[p].lock && |q.bounce| == DMA_BYTES && PortInv(disks[p], q, Holder(s, p), strict)
    ensures Inv(disks, s.(ports := s.ports[p := q]), strict)
  {
    var s' := s.(ports := s.ports[p := q]);
    PortLocks(s, p, q);
    forall x | 0 <= x < MAX_PORTS
      ensures PortInv(disks[x], s'.ports[x], Holder(s', x), strict)
    {
    }
  }

  lemma DevicePort(strict: bool, disk: seq<Byte>, q: Port, a: Step, pc: Pc)
    requires PortInv(disk, q, pc, strict) && DeviceEnabled(a, q)
    ensures PortInv(disk, DeviceStep(a, q), pc, strict)
    ensures DeviceStep(a, q).lock == q.lock
  {
    if pc.Issued? {
      match a
      case Move(_, n) => MoveInv(strict, disk, q, pc.r, n);
      case Finish(_) => FinishInv(strict, disk, q, pc.r);
      case Abort(_, junk) => AbortInv(strict, disk, q, pc.r, junk);
    } else {
      AbandonedOnlyFails(strict, disk, q, a, pc);
    }
  }

  /** An abandoned command that is not exposed can only fail, and its failure touches nothing of use. */
  lemma AbandonedOnlyFails(strict: bool, disk: seq<Byte>, q: Port, a: Step, pc: Pc)
    requires PortInv(disk, q, pc, strict) && !pc.Issued? && DeviceEnabled(a, q)
    ensures a.Abort? && DeviceStep(a, q).disk == q.disk
    ensures PortInv(disk, DeviceStep(a, q), pc, strict)
  {
    assert |q.disk| == |Replay(disk, q.log)|;
  }

  lemma DeviceInv(strict: bool, disks: seq<seq<Byte>>, s: State, a: Step)
    requires Inv(disks, s, strict) && Enabled(s, a) && (a.Move? || a.Finish? || a.Abort?)
    ensures Inv(disks, Next(s, a), strict)
  {
    var q := s.ports[a.p];
    DevicePort(strict, disks[a.p], q, a, Holder(s, a.p));
    PortChange(strict, disks, s, a.p, DeviceStep(a, q));
  }

  lemma CallInv(strict: bool, disks: seq<seq<Byte>>, s: State, t: nat, r: Request)
    requires Inv(disks, s, strict) && Enabled(s, Call(t, r))
    ensures Inv(disks, Next(s, Call(t, r)), strict)
  {
    var s' := Next(s, Call(t, r));
    forall p | 0 <= p < MAX_PORTS
      ensures Holder(s', p) == Holder(s, p)
    {
    }
  }

  /** A thread step that changes its own pc, its port and that port's lock consistently. */
  lemma ThreadChange(strict: bool, disks: seq<seq<Byte>>, s: State, t: nat, pc: Pc, q: Port)
    requires Inv(disks, s, strict) && !PcOf(s, t).Idle?
    requires pc.Idle? || (HoldsLock(pc) && pc.r == PcOf(s, t).r)
    requires |q.bounce| == DMA_BYTES && q.lock == (if pc.Idle? then None else Some(t))
    requires PcOf(s, t).Entered? ==> s.ports[PcOf(s, t).r.port].lock.None?
    requires PortInv(disks[PcOf(s, t).r.port], q, pc, strict)
    ensures Inv(disks, s.(pcs := s.pcs[t := pc], ports := s.ports[PcOf(s, t).r.port := q]), strict)
  {
    var p := PcOf(s, t).r.port;
    var s' := s.(pcs := s.pcs[t := pc], ports := s.ports[p := q]);
    ThreadLocks(s, t, pc, q);
    forall x | 0 <= x < MAX_PORTS
      ensures PortInv(disks[x], s'.ports[x], Holder(s', x), strict)
    {
    }
  }

  /** The locks after such a step. */
  lemma ThreadLocks(s: State, t: nat, pc: Pc, q: Port)
    requires ValidState(s) && LockInv(s) && !PcOf(s, t).Idle?
    requires pc.Idle? || (HoldsLock(pc) && pc.r == PcOf(s, t).r)
    requires |q.bounce| == DMA_BYTES && q.lock == (if pc.Idle? then None else Some(t))
    requires PcOf(s, t).Entered? ==> s.ports[PcOf(s, t).r.port].lock.None?
    ensures var s' := s.(pcs := s.pcs[t := pc], ports := s.ports[PcOf(s, t).r.port := q]);
            && ValidState(s') && LockInv(s')
            && (forall x :: 0 <= x < MAX_PORTS ==>
                  Holder(s', x) == if x == PcOf(s, t).r.port then pc else Holder(s, x))
  {
    var p := PcOf(s, t).r.port;
    var s' := s.(pcs := s.pcs[t := pc], ports := s.ports[p := q]);
    forall x | 0 <= x < MAX_PORTS
      ensures Holder(s', x) == if x == p then pc else Holder(s, x)
    {
    }
  }

  lemma LockedInv(strict: bool, disks: seq<seq<Byte>>, s: State, a: Step)
    requires Inv(disks, s, strict) && Enabled(s, a) && !a.Call? && !a.Move? && !a.Finish? && !a.Abort?
    requires HarmlessStep(s, a) && (a.TimeOut? ==> !strict)
    ensures Inv(disks, Next(s, a), strict)
  {
    var pc := PcOf(s, a.t);
    var p := pc.r.port;
    assert pc.Entered? || Holder(s, p) == pc;
    ThreadInv(strict, s.present, disks[p], s.ports[p], a, a.t, pc);
    var (pc', q') := ThreadStep(a, a.t, pc, s.ports[p]);
    assert |q'.bounce| == DMA_BYTES && q'.lock == (if pc'.Idle? then None else Some(a.t));
    ThreadChange(strict, disks, s, a.t, pc', q');
  }

  lemma StepInv(strict: bool, disks: seq<seq<Byte>>, s: State, a: Step)
    requires Inv(disks, s, strict) && HarmlessStep(s, a) && (a.TimeOut? ==> !strict)
    ensures Inv(disks, Next(s, a), strict)
  {
    if Enabled(s, a) {
      if a.Call? {
        CallInv(strict, disks, s, a.t, a.r);
      } else if a.Move? || a.Finish? || a.Abort? {
        DeviceInv(strict, disks, s, a);
      } else {
        LockedInv(strict, disks, s, a);
      }
    }
  }

  function Disks(s: State): seq<seq<Byte>> {
    seq(|s.ports|, p requires 0 <= p < |s.ports| => s.ports[p].disk)
  }

  lemma {:induction false} RunInv(strict: bool, s: State, steps: seq<Step>)
    requires Init(s) && Harmless(s, steps) && (strict ==> Patient(steps))
    ensures Inv(Disks(s), Run(s, steps), strict)
    decreases |steps|
  {
    if steps != [] {
      RunInv(strict, s, steps[..|steps| - 1]);
      StepInv(strict, Disks(s), Run(s, steps[..|steps| - 1]), steps[|steps| - 1]);
    }
  }

  // ---------------------------------------------------------------- main results

  /**
   In every interleaving whose time-outs are harmless each port behaves like a plain sector
   map: every logged call, in lock order, returned what the map allows, and whenever the lock
   is free the disk is what the map holds after the logged calls.
   */
  lemma {:induction false} Linearizable(s: State, steps: seq<Step>, p: nat)
    requires Init(s) && Harmless(s, steps) && p < MAX_PORTS
    ensures var r := Run(s, steps);
            && |r.ports| == MAX_PORTS
            && LegalLog(s.ports[p].disk, r.ports[p].log)
            && (r.ports[p].lock.None? ==> r.ports[p].disk == Replay(s.ports[p].disk, r.ports[p].log))
  {
    RunInv(false, s, steps);
  }

  /** At most one command is outstanding per port, and it is the lock holder's own. */
  lemma {:induction false} OneCommandPerPort(s: State, steps: seq<Step>, t: nat, u: nat)
    requires Init(s) && Patient(steps)
    ensures var r := Run(s, steps);
            && |r.ports| == MAX_PORTS
            && (forall p :: 0 <= p < MAX_PORTS && r.ports[p].slot.Some? ==>
                  && Holder(r, p).Issued? && Holder(r, p).r.port == p
                  && r.ports[p].slot.value == Wanted(Holder(r, p).r))
            && (PcOf(r, t).Issued? && PcOf(r, u).Issued? && PcOf(r, t).r.port == PcOf(r, u).r.port ==> t == u)
  {
    PatientIsHarmless(s, steps);
    RunInv(true, s, steps);
  }
}
