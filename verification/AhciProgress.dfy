/**
 What an AHCI call gets done.  AhciProtocol says that no harmless run breaks the sector map;
 here, after any such run, a call on a free port whose device carries the command out
 succeeds: a read delivers the sectors, a write leaves them on the disk.
 */
module AhciProgress {
  import opened Bytes
  import opened AhciCommand
  import opened AhciProtocol
  import opened AhciTimeout

  /** The bytes a successful call has moved. */
  function Moved(disk: seq<Byte>, r: Request): seq<Byte>
    requires ValidRequest(r) && InRange(disk, Base(r), Size(r))
  {
    if r.write then r.data[..Size(r)] else disk[Base(r)..Base(r) + Size(r)]
  }

  /** The steps of a call that meets no one else: the thread's and its device's. */
  function Service(t: nat, r: Request): seq<Step> {
    Entry(t, r) + [Exec(t, false), Move(r.port, Size(r)), Finish(r.port)] + [Poll(t), CopyOut(t), Release(t)]
  }

  function Issue(q: Port, r: Request): Port {
    q.(slot := Some(Wanted(r)), progress := 0, failed := false)
  }

  lemma Issues(s: State, done: seq<Step>, t: nat, p: nat, q: Port, r: Request)
    requires ValidState(s) && Reached(s, done, t, p, ReadyToIssue(r), q) && Live(s.present, r) && Size(r) > 0
    requires q.slot.None? && |q.bounce| == DMA_BYTES
    ensures Reached(s, done + [Exec(t, false)], t, p, Issued(r), Issue(q, r))
  {
    CommandRoundTrip(r, s.present, q.dma);
    AdmittedCount(r, s.present);
    ThreadMoves(s, done, t, p, ReadyToIssue(r), q, Exec(t, false), Issued(r), Issue(q, r));
  }

  /** The port once the device has carried a command out. */
  function Served(q: Port, r: Request): Port
    requires CanMove(q, Wanted(r), Size(r)) && q.progress == 0
  {
    MoveBytes(q, Wanted(r), Size(r)).(slot := None)
  }

  lemma Serves(s: State, done: seq<Step>, t: nat, p: nat, q: Port, r: Request)
    requires ValidState(s) && Reached(s, done, t, p, Issued(r), q) && q.slot == Some(Wanted(r)) && q.progress == 0
    requires |q.bounce| == DMA_BYTES && CanMove(q, Wanted(r), Size(r))
    ensures Reached(s, done + [Move(p, Size(r))] + [Finish(p)], t, p, Issued(r), Served(q, r))
  {
    var a, b := Move(p, Size(r)), Finish(p);
    DeviceMoves(s, done, t, p, Issued(r), q, a, MoveBytes(q, Wanted(r), Size(r)));
    DeviceMoves(s, done + [a], t, p, Issued(r), MoveBytes(q, Wanted(r), Size(r)), b, Served(q, r));
  }

  /** What a read copies out of the bounce buffer. */
  function CopiedOut(q: Port, r: Request): seq<Byte>
    requires Size(r) <= |q.bounce|
  {
    if r.write then [] else q.bounce[..Size(r)]
  }

  lemma Returns(s: State, done: seq<Step>, t: nat, p: nat, q: Port, r: Request)
    requires ValidState(s) && Reached(s, done, t, p, Issued(r), q) && q.slot.None? && !q.failed
    requires |q.bounce| == DMA_BYTES && Live(s.present, r)
    ensures var e := Event(t, r, 0, if r.write then Target(q.disk, r) else CopiedOut(q, r));
            Reached(s, done + [Poll(t)] + [CopyOut(t)] + [Release(t)], t, p, Idle, q.(lock := None, log := q.log + [e]))
  {
    var a, b, c, out := Poll(t), CopyOut(t), Release(t), CopiedOut(q, r);
    ThreadMoves(s, done, t, p, Issued(r), q, a, Completed(r, 0), q);
    ThreadMoves(s, done + [a], t, p, Completed(r, 0), q, b, Copied(r, 0, out), q);
    var q' := q.(lock := None, log := q.log + [EventOf(t, q, Copied(r, 0, out))]);
    ThreadMoves(s, done + [a] + [b], t, p, Copied(r, 0, out), q, c, Idle, q');
  }

  /** What the device has moved. */
  lemma MovedBytes(q: Port, t: nat, r: Request)
    requires ValidRequest(r) && InRange(q.disk, Base(r), Size(r)) && 0 < Size(r) <= DMA_BYTES == |q.bounce|
    ensures var d := Served(Issue(Prepared(q, t, r), r), r);
            && |d.bounce| == DMA_BYTES && d.slot.None? && !d.failed && d.log == q.log
            && d.disk == Apply(q.disk, Event(t, r, 0, Moved(q.disk, r)))
            && (if r.write then Target(d.disk, r) else CopiedOut(d, r)) == Moved(q.disk, r)
  {
    var q1 := Issue(Prepared(q, t, r), r);
    if r.write {
      SpliceAt(q.bounce, 0, CallerBytes(r));
      assert q1.bounce[0..0 + Size(r)] == CallerBytes(r);
      SpliceAt(q.disk, Base(r), CallerBytes(r));
    } else {
      SpliceAt(q.bounce, 0, q.disk[Base(r)..Base(r) + Size(r)]);
    }
  }

  lemma ServiceParts(done: seq<Step>, t: nat, r: Request)
    ensures done + Service(t, r) == done + Entry(t, r) + [Exec(t, false)] + [Move(r.port, Size(r))] + [Finish(r.port)]
                                    + [Poll(t)] + [CopyOut(t)] + [Release(t)]
  {
  }

  /** Issued and carried out. */
  lemma {:induction false} Carries(s: State, done: seq<Step>, t: nat, p: nat, q: Port, r: Request)
    requires ValidState(s) && Live(s.present, r) && Reached(s, done, t, p, ReadyToIssue(r), Prepared(q, t, r))
    requires q.slot.None? && 0 < Size(r) <= DMA_BYTES == |q.bounce| && InRange(q.disk, Base(r), Size(r))
    ensures CanMove(Issue(Prepared(q, t, r), r), Wanted(r), Size(r))
    ensures Reached(s, done + [Exec(t, false)] + [Move(p, Size(r))] + [Finish(p)], t, p, Issued(r),
                    Served(Issue(Prepared(q, t, r), r), r))
  {
    Issues(s, done, t, p, Prepared(q, t, r), r);
    Serves(s, done + [Exec(t, false)], t, p, Issue(Prepared(q, t, r), r), r);
  }

  lemma {:induction false} PortServes(s: State, done: seq<Step>, t: nat, p: nat, q: Port, r: Request)
    requires ValidState(s) && Reached(s, done, t, p, Idle, q) && q.lock.None? && q.slot.None? && |q.bounce| == DMA_BYTES
    requires Live(s.present, r) && r.port == p && Size(r) > 0 && InRange(q.disk, Base(r), Size(r))
    ensures var e := Event(t, r, 0, Moved(q.disk, r)); var d := Run(s, done + Service(t, r));
            && ValidState(d) && PcOf(d, t).Idle?
            && d.ports[p].log == q.log + [e] && d.ports[p].disk == Apply(q.disk, e) && d.ports[p].lock.None?
  {
    TakesPort(s, done, t, p, q, r);
    Carries(s, done + Entry(t, r), t, p, q, r);
    MovedBytes(q, t, r);
    Returns(s, done + Entry(t, r) + [Exec(t, false)] + [Move(p, Size(r))] + [Finish(p)], t, p,
            Served(Issue(Prepared(q, t, r), r), r), r);
    ServiceParts(done, t, r);
  }

  /**
   After every harmless run, a call on a port that is free and holds no command, for sectors
   that lie on the disk, succeeds when its device carries the command out: the call is logged
   with code 0, a read with the sectors' contents, a write with the caller's bytes, which are
   then on the disk and change nothing else there.
   */
  lemma {:induction false} CallSucceeds(s: State, steps: seq<Step>, t: nat, r: Request)
    requires Init(s) && Harmless(s, steps) && Live(s.present, r) && Size(r) > 0
    requires ValidState(Run(s, steps)) && PcOf(Run(s, steps), t).Idle?
    requires var q := Run(s, steps).ports[r.port]; q.lock.None? && q.slot.None? && InRange(q.disk, Base(r), Size(r))
    ensures var q, d := Run(s, steps).ports[r.port], Run(s, steps + Service(t, r));
            && |d.ports| == MAX_PORTS
            && d.ports[r.port].log == q.log + [Event(t, r, 0, Moved(q.disk, r))]
            && d.ports[r.port].disk == if r.write then Splice(q.disk, Base(r), r.data[..Size(r)]) else q.disk
  {
    SamePresent(s, steps);
    PortServes(s, steps, t, r.port, Run(s, steps).ports[r.port], r);
  }
}
