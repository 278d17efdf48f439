/**
 Why the transfers are only as good as the poll loop is patient.  When ahci_exec gives up
 on a command that is still in the slot, the port lock is released while the device may
 go on with the transfer.  If the request is exposed, the run can continue, without a
 further time-out, to a state where the port is no longer a sector map.
 */
module AhciTimeout {
  import opened Bytes
  import opened AhciCommand
  import opened AhciProtocol

  /** Running `done` from `s` brings thread `t` to `pc` and port `p` to `q`. */
  ghost predicate Reached(s: State, done: seq<Step>, t: nat, p: nat, pc: Pc, q: Port)
    requires ValidState(s)
  {
    var r := Run(s, done);
    && ValidState(r) && r.present == s.present && p < MAX_PORTS
    && PcOf(r, t) == pc && r.ports[p] == q && (!pc.Idle? ==> pc.r.port == p)
  }

  lemma RunMore(s: State, done: seq<Step>, a: Step)
    requires ValidState(s) && ValidState(Run(s, done))
    ensures Run(s, done + [a]) == Next(Run(s, done), a)
  {
    assert (done + [a])[..|done|] == done;
  }

  predicate OfThread(a: Step, t: nat) {
    !a.Call? && !a.Move? && !a.Finish? && !a.Abort? && a.t == t
  }

  lemma ThreadMoves(s: State, done: seq<Step>, t: nat, p: nat, pc: Pc, q: Port, a: Step, pc': Pc, q': Port)
    requires ValidState(s) && Reached(s, done, t, p, pc, q) && !pc.Idle? && OfThread(a, t) && ThreadEnabled(a, pc, q)
    requires (pc', q') == ThreadStep(a, t, pc, q) && |q'.bounce| == DMA_BYTES
    requires pc'.Idle? || pc'.r == pc.r
    ensures Reached(s, done + [a], t, p, pc', q')
  {
    RunMore(s, done, a);
  }

  lemma DeviceMoves(s: State, done: seq<Step>, t: nat, p: nat, pc: Pc, q: Port, a: Step, q': Port)
    requires ValidState(s) && Reached(s, done, t, p, pc, q) && (a.Move? || a.Finish? || a.Abort?) && a.p == p
    requires DeviceEnabled(a, q) && q' == DeviceStep(a, q) && |q'.bounce| == DMA_BYTES
    ensures Reached(s, done + [a], t, p, pc, q')
  {
    RunMore(s, done, a);
  }

  lemma Calls(s: State, done: seq<Step>, t: nat, p: nat, q: Port, r: Request)
    requires ValidState(s) && Reached(s, done, t, p, Idle, q) && Live(s.present, r) && r.port == p
    ensures Reached(s, done + [Call(t, r)], t, p, Entered(r), q)
  {
    RunMore(s, done, Call(t, r));
  }

  // ---------------------------------------------------------------- giving up

  /** The port as the thread that gave up leaves it: unlocked, the command still in the slot. */
  function Abandoned(q: Port, t: nat, r: Request): Port {
    q.(lock := None, log := q.log + [Event(t, r, -1, if r.write then Target(q.disk, r) else [])])
  }

  lemma {:induction false} GivesUp(s: State, done: seq<Step>, t: nat, p: nat, r: Request, q: Port)
    requires ValidState(s) && Reached(s, done, t, p, Issued(r), q) && q.slot.Some?
    ensures Reached(s, done + [TimeOut(t)] + [CopyOut(t)] + [Release(t)], t, p, Idle, Abandoned(q, t, r))
  {
    ThreadMoves(s, done, t, p, Issued(r), q, TimeOut(t), Completed(r, -1), q);
    ThreadMoves(s, done + [TimeOut(t)], t, p, Completed(r, -1), q, CopyOut(t), Copied(r, -1, []), q);
    ThreadMoves(s, done + [TimeOut(t)] + [CopyOut(t)], t, p, Copied(r, -1, []), q, Release(t), Idle, Abandoned(q, t, r));
  }

  function Fill(n: nat, b: Byte): (s: seq<Byte>)
    ensures |s| == n
  {
    seq(n, _ => b)
  }

  /** What a linearizable port satisfies, as in Linearizable. */
  predicate SectorMap(disk: seq<Byte>, q: Port) {
    LegalLog(disk, q.log) && (q.lock.None? ==> q.disk == Replay(disk, q.log))
  }

  /** An abandoned write: the device changes the disk after the call has returned. */
  lemma {:induction false} AbandonedWrite(disk: seq<Byte>, q: Port, t: nat, r: Request, junk: seq<Byte>)
    requires q.slot == Some(Wanted(r)) && r.write && Size(r) > 0 && InRange(q.disk, Base(r), Size(r))
    requires |disk| == |q.disk| && |junk| == Size(r) && junk[0] != q.disk[Base(r)]
    ensures !SectorMap(disk, AbortPort(Abandoned(q, t, r), q.slot.value, junk))
  {
    var log' := Abandoned(q, t, r).log;
    assert log'[..|q.log|] == q.log;
    assert Replay(disk, log')[Base(r)] == Target(q.disk, r)[0] == q.disk[Base(r)];
    assert AbortPort(Abandoned(q, t, r), q.slot.value, junk).disk[Base(r)] == junk[0];
  }

  // ---------------------------------------------------------------- the next writer

  /** `more` continues `done` without a further time-out. */
  predicate Continues(done: seq<Step>, more: seq<Step>) {
    |done| <= |more| && more[..|done|] == done && forall i :: |done| <= i < |more| ==> !more[i].TimeOut?
  }

  lemma ContinuesBoth(a: seq<Step>, b: seq<Step>, c: seq<Step>)
    requires Continues(a, b) && Continues(b, c)
    ensures Continues(a, c)
  {
    assert c[..|a|] == c[..|b|][..|a|];
    forall i | |a| <= i < |c|
      ensures !c[i].TimeOut?
    {
      assert i < |b| ==> c[i] == c[..|b|][i];
    }
  }

  /** One sector of zeros written to the start of the disk. */
  function Zeros(p: nat): Request {
    Request(true, p, 0, 1, Fill(SECTOR, 0))
  }

  lemma ZerosAdmitted(p: nat, present: seq<bool>, dma: nat)
    requires p < MAX_PORTS == |present| && present[p]
    ensures Live(present, Zeros(p)) && Size(Zeros(p)) == SECTOR && Base(Zeros(p)) == 0
    ensures Decode(BuildCommand(true, 0, 1, dma, SECTOR), dma) == Some(Wanted(Zeros(p)))
  {
    CommandRoundTrip(Zeros(p), present, dma);
  }

  /** The port and the place of a thread that has the lock and, for a write, has filled the bounce buffer. */
  function Prepared(q: Port, t: nat, r: Request): Port
    requires ValidRequest(r)
  {
    q.(lock := Some(t), bounce := if r.write then Splice(q.bounce, 0, CallerBytes(r)) else q.bounce)
  }

  function ReadyToIssue(r: Request): Pc {
    if r.write then Filled(r) else Holding(r)
  }

  function Entry(t: nat, r: Request): seq<Step> {
    [Call(t, r), Acquire(t)] + if r.write then [CopyIn(t)] else []
  }

  /** Call and lock. */
  lemma TakesLock(s: State, done: seq<Step>, t: nat, p: nat, q: Port, r: Request)
    requires ValidState(s) && Reached(s, done, t, p, Idle, q) && q.lock.None? && Live(s.present, r) && r.port == p
    ensures Reached(s, done + [Call(t, r)] + [Acquire(t)], t, p, Holding(r), q.(lock := Some(t)))
  {
    Calls(s, done, t, p, q, r);
    ThreadMoves(s, done + [Call(t, r)], t, p, Entered(r), q, Acquire(t), Holding(r), q.(lock := Some(t)));
  }

  lemma EntrySteps(done: seq<Step>, t: nat, r: Request)
    ensures done + Entry(t, r) == done + [Call(t, r)] + [Acquire(t)] + if r.write then [CopyIn(t)] else []
    ensures Continues(done, done + Entry(t, r))
  {
  }

  /** Call, lock, and fill the bounce buffer. */
  lemma TakesPort(s: State, done: seq<Step>, t: nat, p: nat, q: Port, r: Request)
    requires ValidState(s) && Reached(s, done, t, p, Idle, q) && q.lock.None? && Live(s.present, r) && r.port == p
    ensures Continues(done, done + Entry(t, r))
    ensures Reached(s, done + Entry(t, r), t, p, ReadyToIssue(r), Prepared(q, t, r))
  {
    var locked := done + [Call(t, r)] + [Acquire(t)];
    TakesLock(s, done, t, p, q, r);
    EntrySteps(done, t, r);
    if r.write {
      ThreadMoves(s, locked, t, p, Holding(r), q.(lock := Some(t)), CopyIn(t), Filled(r), Prepared(q, t, r));
    } else {
      assert locked + [] == locked;
    }
  }

  /** The abandoned read ends by overwriting the bounce buffer, and the new command is issued. */
  lemma Overwrites(s: State, done: seq<Step>, t: nat, p: nat, q: Port) returns (more: seq<Step>)
    requires ValidState(s) && Reached(s, done, t, p, Filled(Zeros(p)), q) && s.present[p] && |q.bounce| == DMA_BYTES
    requires q.slot.Some? && !q.slot.value.write && q.slot.value.size <= DMA_BYTES
    ensures Continues(done, more)
    ensures Reached(s, more, t, p, Issued(Zeros(p)),
                    q.(slot := Some(Wanted(Zeros(p))), progress := 0, failed := false,
                       bounce := Splice(q.bounce, 0, Fill(q.slot.value.size, 1))))
  {
    ZerosAdmitted(p, s.present, q.dma);
    var r := Zeros(p);
    var junk := Fill(q.slot.value.size, 1);
    var a, b := Abort(p, junk), Exec(t, false);
    var q1 := AbortPort(q, q.slot.value, junk);
    DeviceMoves(s, done, t, p, Filled(r), q, a, q1);
    ThreadMoves(s, done + [a], t, p, Filled(r), q1, b, Issued(r), ExecPort(q1, r));
    more := done + [a] + [b];
  }

  /** The port once the device has carried out the write of one sector. */
  function Written(q: Port): Port
    requires |q.bounce| == DMA_BYTES
  {
    q.(slot := None, progress := SECTOR, disk := Splice(q.disk, 0, q.bounce[..SECTOR]))
  }

  lemma Transfers(s: State, done: seq<Step>, t: nat, p: nat, q: Port) returns (more: seq<Step>)
    requires ValidState(s) && Reached(s, done, t, p, Issued(Zeros(p)), q) && s.present[p] && |q.bounce| == DMA_BYTES
    requires q.slot == Some(Wanted(Zeros(p))) && q.progress == 0 && |q.disk| >= SECTOR
    ensures Continues(done, more) && Reached(s, more, t, p, Issued(Zeros(p)), Written(q))
  {
    ZerosAdmitted(p, s.present, q.dma);
    var a, b := Move(p, SECTOR), Finish(p);
    assert q.bounce[0..SECTOR] == q.bounce[..SECTOR];
    DeviceMoves(s, done, t, p, Issued(Zeros(p)), q, a, Written(q).(slot := q.slot));
    DeviceMoves(s, done + [a], t, p, Issued(Zeros(p)), Written(q).(slot := q.slot), b, Written(q));
    more := done + [a] + [b];
  }

  /** The call reports success. */
  lemma Succeeds(s: State, done: seq<Step>, t: nat, p: nat, q: Port) returns (more: seq<Step>)
    requires ValidState(s) && Reached(s, done, t, p, Issued(Zeros(p)), q) && s.present[p] && |q.bounce| == DMA_BYTES
    requires q.slot.None? && !q.failed && |q.disk| >= SECTOR
    ensures Continues(done, more)
    ensures Reached(s, more, t, p, Idle, q.(lock := None, log := q.log + [Event(t, Zeros(p), 0, q.disk[..SECTOR])]))
  {
    ZerosAdmitted(p, s.present, q.dma);
    var r := Zeros(p);
    var a, b, c := Poll(t), CopyOut(t), Release(t);
    assert q.disk[0..SECTOR] == q.disk[..SECTOR];
    ThreadMoves(s, done, t, p, Issued(r), q, a, Completed(r, 0), q);
    ThreadMoves(s, done + [a], t, p, Completed(r, 0), q, b, Copied(r, 0, []), q);
    ThreadMoves(s, done + [a] + [b], t, p, Copied(r, 0, []), q, c, Idle,
                q.(lock := None, log := q.log + [Event(t, r, 0, q.disk[..SECTOR])]));
    more := done + [a] + [b] + [c];
  }

  lemma OnesAreNotZeros(bounce: seq<Byte>, n: nat, disk: seq<Byte>)
    requires SECTOR <= n <= |bounce| && SECTOR <= |disk|
    ensures Splice(disk, 0, Splice(bounce, 0, Fill(n, 1))[..SECTOR])[0] == 1
  {
  }

  /** The port when the next writer's command goes out with the abandoned read's data in the bounce buffer. */
  function Spoiled(q: Port, t: nat, p: nat): Port
    requires q.slot.Some?
  {
    q.(lock := Some(t), slot := Some(Wanted(Zeros(p))), progress := 0, failed := false,
       bounce := Splice(Splice(q.bounce, 0, Fill(SECTOR, 0)), 0, Fill(q.slot.value.size, 1)))
  }

  lemma {:induction false} SpoilsWrite(s: State, done: seq<Step>, t: nat, p: nat, q: Port) returns (more: seq<Step>)
    requires ValidState(s) && Reached(s, done, t, p, Idle, q) && s.present[p] && q.lock.None? && |q.bounce| == DMA_BYTES
    requires q.slot.Some? && !q.slot.value.write && q.slot.value.size <= DMA_BYTES
    ensures Continues(done, more) && Reached(s, more, t, p, Issued(Zeros(p)), Spoiled(q, t, p))
  {
    ZerosAdmitted(p, s.present, q.dma);
    TakesPort(s, done, t, p, q, Zeros(p));
    assert CallerBytes(Zeros(p)) == Fill(SECTOR, 0);
    more := Overwrites(s, done + Entry(t, Zeros(p)), t, p, Prepared(q, t, Zeros(p)));
    ContinuesBoth(done, done + Entry(t, Zeros(p)), more);
  }

  /** An abandoned read: the next write reports success for data that is not the caller's. */
  lemma {:induction false} AbandonedRead(s: State, done: seq<Step>, t: nat, p: nat, q: Port, disk: seq<Byte>) returns (more: seq<Step>)
    requires ValidState(s) && Reached(s, done, t, p, Idle, q) && s.present[p] && q.lock.None? && |q.bounce| == DMA_BYTES
    requires q.slot.Some? && !q.slot.value.write && SECTOR <= q.slot.value.size <= DMA_BYTES && |q.disk| >= SECTOR
    ensures Continues(done, more) && ValidState(Run(s, more))
    ensures !SectorMap(disk, Run(s, more).ports[p])
  {
    var b := SpoilsWrite(s, done, t, p, q);
    var c := Transfers(s, b, t, p, Spoiled(q, t, p));
    more := Succeeds(s, c, t, p, Written(Spoiled(q, t, p)));
    ContinuesBoth(done, b, c);
    ContinuesBoth(done, c, more);
    OnesAreNotZeros(Splice(q.bounce, 0, Fill(SECTOR, 0)), q.slot.value.size, q.disk);
    NotLegal(disk, Run(s, more).ports[p].log, t, p);
  }

  lemma NotLegal(disk: seq<Byte>, log: seq<Event>, t: nat, p: nat)
    requires log != [] && var e := log[|log| - 1]; e.r == Zeros(p) && e.rc == 0 && |e.data| == SECTOR && e.data[0] == 1
    ensures !LegalLog(disk, log)
  {
    var e := log[|log| - 1];
    assert Zeros(p).data[..SECTOR][0] == 0;
    assert !Legal(Replay(disk, log[..|log| - 1]), e);
  }

  // ---------------------------------------------------------------- main result

  /**
   Every exposed time-out can cost the port its meaning: after any run whose time-outs were
   harmless, when thread `t` gives up on an exposed request, some continuation without a
   further time-out leaves a port that is not a sector map.  Linearizable is the converse.
   */
  lemma {:induction false} TimeOutBreaks(s: State, steps: seq<Step>, t: nat) returns (more: seq<Step>)
    requires Init(s) && Harmless(s, steps) && ValidState(Run(s, steps)) && Enabled(Run(s, steps), TimeOut(t))
    requires var r := PcOf(Run(s, steps), t).r; Exposed(Run(s, steps).ports[r.port], r)
    ensures var p := PcOf(Run(s, steps), t).r.port;
            && Continues(steps + [TimeOut(t)], more) && ValidState(Run(s, more))
            && !SectorMap(s.ports[p].disk, Run(s, more).ports[p])
  {
    var now := Run(s, steps);
    var r := PcOf(now, t).r;
    var p, q := r.port, now.ports[r.port];
    InFlight(s, steps, t);
    GivesUp(s, steps, t, p, r, q);
    var done := steps + [TimeOut(t)] + [CopyOut(t)] + [Release(t)];
    if r.write {
      more := AbortsWrite(s, done, t, p, q, r, s.ports[p].disk);
    } else {
      more := AbandonedRead(s, done, t, p, Abandoned(q, t, r), s.ports[p].disk);
    }
    ContinuesBoth(steps + [TimeOut(t)], done, more);
  }

  /** What is known of a port whose command has not finished. */
  lemma {:induction false} InFlight(s: State, steps: seq<Step>, t: nat)
    requires Init(s) && Harmless(s, steps) && ValidState(Run(s, steps)) && Enabled(Run(s, steps), TimeOut(t))
    ensures var pc := PcOf(Run(s, steps), t);
            && pc.Issued? && Reached(s, steps, t, pc.r.port, pc, Run(s, steps).ports[pc.r.port])
            && s.present[pc.r.port]
            && var q := Run(s, steps).ports[pc.r.port];
               && q.slot == Some(Wanted(pc.r)) && |q.bounce| == DMA_BYTES
               && SECTOR <= Size(pc.r) <= DMA_BYTES && |q.disk| == |s.ports[pc.r.port].disk|
  {
    RunInv(false, s, steps);
    SamePresent(s, steps);
    var now := Run(s, steps);
    var pc := PcOf(now, t);
    assert Holder(now, pc.r.port) == pc;
    AdmittedCount(pc.r, now.present);
  }

  lemma {:induction false} SamePresent(s: State, steps: seq<Step>)
    requires ValidState(s)
    ensures Run(s, steps).present == s.present
    decreases |steps|
  {
    if steps != [] {
      SamePresent(s, steps[..|steps| - 1]);
    }
  }

  lemma AbortsWrite(s: State, done: seq<Step>, t: nat, p: nat, q: Port, r: Request, disk: seq<Byte>)
    returns (more: seq<Step>)
    requires ValidState(s) && Reached(s, done, t, p, Idle, Abandoned(q, t, r)) && |q.bounce| == DMA_BYTES
    requires q.slot == Some(Wanted(r)) && r.write && Size(r) > 0 && InRange(q.disk, Base(r), Size(r)) && |disk| == |q.disk|
    ensures Continues(done, more) && ValidState(Run(s, more)) && !SectorMap(disk, Run(s, more).ports[p])
  {
    var junk := Fill(Size(r), if q.disk[Base(r)] == 0 then 1 else 0);
    var q' := Abandoned(q, t, r);
    DeviceMoves(s, done, t, p, Idle, q', Abort(p, junk), AbortPort(q', q.slot.value, junk));
    AbandonedWrite(disk, q, t, r, junk);
    more := done + [Abort(p, junk)];
  }

  /** Whatever happens next, short of a time-out, port `p` stays a sector map. */
  ghost predicate StaysSectorMap(s: State, done: seq<Step>, p: nat)
    requires ValidState(s) && p < MAX_PORTS
  {
    forall more :: Continues(done, more) ==>
      |Run(s, more).ports| == MAX_PORTS && SectorMap(s.ports[p].disk, Run(s, more).ports[p])
  }

  lemma {:induction false} StillHarmless(s: State, done: seq<Step>, more: seq<Step>)
    requires ValidState(s) && Harmless(s, done) && Continues(done, more)
    ensures Harmless(s, more)
    decreases |more|
  {
    if |more| > |done| {
      var init := more[..|more| - 1];
      assert init[..|done|] == more[..|done|];
      StillHarmless(s, done, init);
    } else {
      assert more == done;
    }
  }

  /** The exact condition: after a time-out the port stays a sector map if and only if the request was not exposed. */
  lemma {:induction false} TimeOutExact(s: State, steps: seq<Step>, t: nat)
    requires Init(s) && Harmless(s, steps) && ValidState(Run(s, steps)) && Enabled(Run(s, steps), TimeOut(t))
    ensures var r := PcOf(Run(s, steps), t).r;
            StaysSectorMap(s, steps + [TimeOut(t)], r.port) <==> !Exposed(Run(s, steps).ports[r.port], r)
  {
    var r := PcOf(Run(s, steps), t).r;
    var done := steps + [TimeOut(t)];
    if Exposed(Run(s, steps).ports[r.port], r) {
      var more := TimeOutBreaks(s, steps, t);
      assert Continues(done, more);
    } else {
      assert done[..|steps|] == steps;
      forall more | Continues(done, more)
        ensures |Run(s, more).ports| == MAX_PORTS && SectorMap(s.ports[r.port].disk, Run(s, more).ports[r.port])
      {
        StillHarmless(s, done, more);
        Linearizable(s, more, r.port);
      }
    }
  }

  /** Exposed time-outs happen: a write of one sector on any port whose disk has one. */
  lemma {:induction false} ExposedTimeOutHappens(s: State, t: nat, p: nat) returns (steps: seq<Step>)
    requires Init(s) && p < MAX_PORTS && s.present[p] && |s.ports[p].disk| >= SECTOR
    ensures Patient(steps) && Harmless(s, steps) && ValidState(Run(s, steps)) && Enabled(Run(s, steps), TimeOut(t))
    ensures var r := PcOf(Run(s, steps), t).r; r.port == p && Exposed(Run(s, steps).ports[p], r)
  {
    var q := s.ports[p];
    assert Reached(s, [], t, p, Idle, q);
    var r := Zeros(p);
    ZerosAdmitted(p, s.present, q.dma);
    TakesPort(s, [], t, p, q, r);
    var filled, q1 := [] + Entry(t, r), Prepared(q, t, r);
    ThreadMoves(s, filled, t, p, Filled(r), q1, Exec(t, false), Issued(r), ExecPort(q1, r));
    steps := filled + [Exec(t, false)];
    PatientIsHarmless(s, steps);
  }
}
