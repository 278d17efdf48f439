/**
 What the receive path gets done.  RxProtocol says what no run can break; here are the steps
 that must happen: a drain empties the descriptor ring into the queue, a consumer gets the
 oldest frame, and the NIC finds a free descriptor.
 */
module RxProgress {
  import opened Bytes
  import opened RxQueue
  import opened RxProtocol

  lemma {:induction false} RunAppend(s: State, a: seq<Step>, b: seq<Step>)
    requires ValidState(s)
    ensures Run(s, a + b) == Run(Run(s, a), b)
    decreases |b|
  {
    if b == [] {
      assert a + b == a;
    } else {
      RunAppend(s, a, b[..|b| - 1]);
      assert (a + b)[..|a + b| - 1] == a + b[..|b| - 1];
    }
  }

  lemma RunOne(s: State, a: Step)
    requires ValidState(s)
    ensures Run(s, [a]) == Apply(s, a)
  {
    assert [a][..0] == [];
  }

  // ---------------------------------------------------------------- what a drain offers

  function NonEmpty(frames: seq<Frame>): seq<Frame>
    decreases |frames|
  {
    if frames == [] then [] else (if frames[0] == [] then [] else [frames[0]]) + NonEmpty(frames[1..])
  }

  /** The queue after frames have been pushed one after the other. */
  function Offer(q: Queue, frames: seq<Frame>): Queue
    decreases |frames|
  {
    if frames == [] then q else Offer(Enqueue(q, frames[0]), frames[1..])
  }

  /** The first 64 of a sequence. */
  function Head64(frames: seq<Frame>): seq<Frame> {
    if |frames| <= 64 then frames else frames[..64]
  }

  /** Pushing keeps the non-empty frames that fit 64 slots, in order. */
  lemma {:induction false} OfferKeeps(q: Queue, frames: seq<Frame>)
    requires |q.frames| <= 64
    ensures Offer(q, frames).frames == Head64(q.frames + NonEmpty(frames))
    decreases |frames|
  {
    if frames == [] {
      assert q.frames + NonEmpty(frames) == q.frames;
    } else {
      OfferKeeps(Enqueue(q, frames[0]), frames[1..]);
      KeepsOne(q, frames[0], NonEmpty(frames[1..]));
    }
  }

  lemma KeepsOne(q: Queue, f: Frame, rest: seq<Frame>)
    requires |q.frames| <= 64
    ensures Head64(Enqueue(q, f).frames + rest) == Head64(q.frames + ((if f == [] then [] else [f]) + rest))
  {
    if f == [] {
      assert [] + rest == rest;
    } else {
      assert q.frames + ([f] + rest) == q.frames + [f] + rest;
    }
  }

  // ---------------------------------------------------------------- one turn of the drain

  /** Thread `t` holds hw_rx_lock and has just read RDH. */
  predicate AtCompare(s: State, t: nat) {
    ValidState(s) && s.hwLock == Some(t) && PhaseOf(s, t) == Comparing(s.rdh)
  }

  /**
   One turn of the loop by thread `t`, `depth` calls away.  The solver does not unfold a recursion
   this deep, so turns are strung together without looking at their steps.
   */
  function TurnAway(depth: nat, s: State, t: nat): (r: State)
    requires ValidState(s)
    ensures ValidState(r)
    decreases depth, s, t
  {
    if depth == 0 then HandedBack(Apply(Apply(s, Compare(t)), PushFrame(t)), t) else TurnAway(depth - 1, s, t)
  }

  const SEAL: nat := 4

  function AfterTurn(s: State, t: nat): (r: State)
    requires ValidState(s)
    ensures ValidState(r)
  {
    TurnAway(SEAL, s, t)
  }

  lemma {:induction false} TurnHere(depth: nat, s: State, t: nat)
    requires ValidState(s)
    ensures TurnAway(depth, s, t) == HandedBack(Apply(Apply(s, Compare(t)), PushFrame(t)), t)
    decreases depth
  {
    if depth > 0 {
      TurnHere(depth - 1, s, t);
    }
  }

  /** The rest of a turn once the frame has been pushed. */
  function HandedBack(s: State, t: nat): (r: State)
    requires ValidState(s)
    ensures ValidState(r)
  {
    Apply(Apply(Apply(s, Advance(t)), WriteRdt(t)), ReadRdh(t))
  }

  /** What one turn leaves: the oldest waiting frame has been pushed, everything else is as before. */
  predicate Turned(s: State, r: State, t: nat) {
    && |s.verdicts| < |s.arrived| && AtCompare(r, t)
    && r.lastRdh == Next(s.lastRdh) && r.rdh == s.rdh && r.arrived == s.arrived && r.removed == s.removed
    && |r.verdicts| == |s.verdicts| + 1 && r.queue == Enqueue(s.queue, s.arrived[|s.verdicts|])
    && r.waiting == s.waiting
  }

  /** The first half of a turn. */
  lemma TurnPushes(s: State, t: nat)
    requires Inv(s) && AtCompare(s, t) && s.rdh != s.lastRdh
    ensures var r := Apply(Apply(s, Compare(t)), PushFrame(t));
            && Inv(r) && r.hwLock == Some(t) && PhaseOf(r, t).Pushed? && r.lastRdh == s.lastRdh && r.rdh == s.rdh
            && r.arrived == s.arrived && r.removed == s.removed && r.waiting == s.waiting
            && |s.verdicts| < |s.arrived| && |r.verdicts| == |s.verdicts| + 1
            && r.queue == Enqueue(s.queue, s.arrived[|s.verdicts|])
  {
    var a := Apply(s, Compare(t));
    StepInv(s, Compare(t));
    PushFront(a, t);
    StepInv(a, PushFrame(t));
  }

  /** The second half. */
  lemma TurnHandsBack(s: State, t: nat)
    requires ValidState(s) && PhaseOf(s, t).Pushed?
    ensures var r := HandedBack(s, t);
            && r.hwLock == s.hwLock && PhaseOf(r, t) == Comparing(s.rdh) && r.lastRdh == Next(s.lastRdh) && r.rdh == s.rdh
            && r.arrived == s.arrived && r.removed == s.removed && r.waiting == s.waiting
            && r.verdicts == s.verdicts && r.queue == s.queue
  {
  }

  lemma HandedBackInv(s: State, t: nat)
    requires Inv(s)
    ensures Inv(HandedBack(s, t))
  {
    StepInv(s, Advance(t));
    StepInv(Apply(s, Advance(t)), WriteRdt(t));
    StepInv(Apply(Apply(s, Advance(t)), WriteRdt(t)), ReadRdh(t));
  }

  lemma TurnDrains(s: State, t: nat)
    requires Inv(s) && AtCompare(s, t) && s.rdh != s.lastRdh
    ensures Inv(AfterTurn(s, t)) && Turned(s, AfterTurn(s, t), t)
  {
    var a := Apply(Apply(s, Compare(t)), PushFrame(t));
    TurnHere(SEAL, s, t);
    TurnPushes(s, t);
    TurnHandsBack(a, t);
    HandedBackInv(a, t);
  }

  // ---------------------------------------------------------------- the whole drain

  function AfterTurns(s: State, t: nat, n: nat): (r: State)
    requires ValidState(s)
    ensures ValidState(r)
    decreases n
  {
    if n == 0 then s else AfterTurns(AfterTurn(s, t), t, n - 1)
  }

  /** All that waited in `s` has been pushed. */
  predicate Emptied(s: State, r: State) {
    && |s.verdicts| <= |s.arrived| == |r.verdicts| && r.arrived == s.arrived && r.removed == s.removed
    && r.rdh == s.rdh && r.lastRdh == s.rdh && r.waiting == s.waiting
    && r.queue == Offer(s.queue, s.arrived[|s.verdicts|..])
  }

  lemma NothingWaits(s: State, t: nat)
    requires Inv(s) && AtCompare(s, t) && s.rdh == s.lastRdh
    ensures Emptied(s, s)
  {
    assert Window(s.ring, Undrained(s), s.rdh) == [];
    assert s.arrived[|s.verdicts|..] == [];
  }

  lemma TurnThenEmptied(s: State, r: State, d: State, t: nat)
    requires Turned(s, r, t) && Emptied(r, d)
    ensures Emptied(s, d)
  {
    assert r.arrived[|r.verdicts|..] == s.arrived[|s.verdicts|..][1..];
  }

  lemma {:induction false} TurnsDrain(s: State, t: nat, n: nat)
    requires Inv(s) && AtCompare(s, t) && n == Dist(s.lastRdh, s.rdh)
    ensures AtCompare(AfterTurns(s, t, n), t) && Emptied(s, AfterTurns(s, t, n))
    decreases n
  {
    DistFacts(s.lastRdh, s.rdh);
    if n == 0 {
      NothingWaits(s, t);
    } else {
      TurnDrains(s, t);
      TurnsDrain(AfterTurn(s, t), t, n - 1);
      TurnThenEmptied(s, AfterTurn(s, t), AfterTurns(AfterTurn(s, t), t, n - 1), t);
    }
  }

  // The same as runs.

  lemma RunFront(s: State, a: Step, rest: seq<Step>)
    requires ValidState(s)
    ensures Run(s, [a] + rest) == Run(Apply(s, a), rest)
  {
    RunAppend(s, [a], rest);
    RunOne(s, a);
  }

  function TurnSteps(depth: nat, t: nat): seq<Step>
    decreases depth, t
  {
    if depth == 0 then [Compare(t)] + ([PushFrame(t)] + ([Advance(t)] + ([WriteRdt(t)] + [ReadRdh(t)])))
    else TurnSteps(depth - 1, t)
  }

  lemma {:induction false} TurnStepsHere(depth: nat, t: nat)
    ensures TurnSteps(depth, t) == [Compare(t), PushFrame(t), Advance(t), WriteRdt(t), ReadRdh(t)]
    ensures TurnSteps(depth, t) == [Compare(t)] + ([PushFrame(t)] + ([Advance(t)] + ([WriteRdt(t)] + [ReadRdh(t)])))
    decreases depth
  {
    if depth > 0 {
      TurnStepsHere(depth - 1, t);
    }
  }

  function Turn(t: nat): seq<Step> {
    TurnSteps(SEAL, t)
  }

  lemma RunTurn(s: State, t: nat)
    requires ValidState(s)
    ensures Run(s, Turn(t)) == AfterTurn(s, t)
  {
    var a := Apply(s, Compare(t));
    var b := Apply(a, PushFrame(t));
    var c := Apply(b, Advance(t));
    TurnStepsHere(SEAL, t);
    RunFront(s, Compare(t), [PushFrame(t)] + ([Advance(t)] + ([WriteRdt(t)] + [ReadRdh(t)])));
    RunFront(a, PushFrame(t), [Advance(t)] + ([WriteRdt(t)] + [ReadRdh(t)]));
    RunFront(b, Advance(t), [WriteRdt(t)] + [ReadRdh(t)]);
    RunFront(c, WriteRdt(t), [ReadRdh(t)]);
    RunOne(Apply(c, WriteRdt(t)), ReadRdh(t));
    TurnHere(SEAL, s, t);
  }

  function Turns(t: nat, n: nat): seq<Step> {
    if n == 0 then [] else Turn(t) + Turns(t, n - 1)
  }

  lemma {:induction false} RunTurns(s: State, t: nat, n: nat)
    requires ValidState(s)
    ensures Run(s, Turns(t, n)) == AfterTurns(s, t, n)
    decreases n
  {
    if n > 0 {
      RunAppend(s, Turn(t), Turns(t, n - 1));
      RunTurn(s, t);
      RunTurns(AfterTurn(s, t), t, n - 1);
    }
  }

  /** A call of e1000_hw_rx_drain that finds `n` descriptors filled. */
  function DrainSteps(t: nat, n: nat): seq<Step> {
    [LockHw(t)] + ([ReadRdh(t)] + (Turns(t, n) + [Compare(t)]))
  }

  lemma {:induction false} RunDrain(s: State, t: nat, n: nat)
    requires ValidState(s)
    ensures Run(s, DrainSteps(t, n)) == Apply(AfterTurns(Apply(Apply(s, LockHw(t)), ReadRdh(t)), t, n), Compare(t))
  {
    var a := Apply(s, LockHw(t));
    var b := Apply(a, ReadRdh(t));
    RunFront(s, LockHw(t), [ReadRdh(t)] + (Turns(t, n) + [Compare(t)]));
    RunFront(a, ReadRdh(t), Turns(t, n) + [Compare(t)]);
    RunAppend(b, Turns(t, n), [Compare(t)]);
    RunTurns(b, t, n);
    RunOne(AfterTurns(b, t, n), Compare(t));
  }

  lemma Locks(r: State, t: nat)
    requires Inv(r) && r.hwLock.None?
    ensures var a := Apply(Apply(r, LockHw(t)), ReadRdh(t));
            && Inv(a) && AtCompare(a, t) && a.lastRdh == r.lastRdh && a.rdh == r.rdh && a.queue == r.queue
            && a.arrived == r.arrived && a.verdicts == r.verdicts && a.removed == r.removed && a.waiting == r.waiting
  {
    StepInv(r, LockHw(t));
    StepInv(Apply(r, LockHw(t)), ReadRdh(t));
  }

  lemma {:induction false} DrainEmpties(r: State, t: nat, n: nat)
    requires Inv(r) && r.hwLock.None? && n == Dist(r.lastRdh, r.rdh)
    ensures var d := Run(r, DrainSteps(t, n)); d.hwLock.None? && Emptied(r, d)
  {
    Locks(r, t);
    TurnsDrain(Apply(Apply(r, LockHw(t)), ReadRdh(t)), t, n);
    RunDrain(r, t, n);
  }

  /**
   Progress of a drain after every run: when no one holds hw_rx_lock, thread `t` alone empties
   the ring with one turn per filled descriptor.  Every frame written has then been looked at,
   the queue is the old one followed by the non-empty frames that waited, up to 64, and the
   lock is free again.
   */
  lemma {:induction false} DrainTakesAll(s: State, steps: seq<Step>, t: nat)
    requires Init(s) && Run(s, steps).hwLock.None?
    ensures var r := Run(s, steps);
            var d := Run(s, steps + DrainSteps(t, Dist(r.lastRdh, r.rdh)));
            && d.hwLock.None? && d.rdh == d.lastRdh == r.rdh
            && d.arrived == r.arrived && d.removed == r.removed && |d.verdicts| == |d.arrived|
            && |r.verdicts| <= |r.arrived|
            && d.queue.frames == Head64(r.queue.frames + NonEmpty(r.arrived[|r.verdicts|..]))
  {
    RunInv(s, steps);
    var r := Run(s, steps);
    DrainEmpties(r, t, Dist(r.lastRdh, r.rdh));
    OfferKeeps(r.queue, r.arrived[|r.verdicts|..]);
    RunAppend(s, steps, DrainSteps(t, Dist(r.lastRdh, r.rdh)));
  }

  // ---------------------------------------------------------------- under every interleaving

  /**
   Whatever happened in between, a drain lets go of the lock if and only if every frame that
   had arrived when it last read RDH has been looked at.
   */
  lemma {:induction false} UnlocksWhenDone(s: State, steps: seq<Step>, t: nat)
    requires Init(s) && PhaseOf(Run(s, steps), t).Comparing?
    ensures var r := Run(s, steps);
            && |r.verdicts| <= r.seen <= |r.arrived|
            && (Run(s, steps + [Compare(t)]).hwLock.None? <==> |r.verdicts| == r.seen)
  {
    RunInv(s, steps);
    var r := Run(s, steps);
    DistFacts(r.lastRdh, PhaseOf(r, t).rdh);
    RunAppend(s, steps, [Compare(t)]);
    RunOne(r, Compare(t));
  }

  /** A read of RDH notes every frame that has arrived. */
  lemma {:induction false} ReadSeesAll(s: State, steps: seq<Step>, t: nat)
    requires Init(s) && PhaseOf(Run(s, steps), t).Reading?
    ensures var d := Run(s, steps + [ReadRdh(t)]); PhaseOf(d, t).Comparing? && d.seen == |d.arrived| == |Run(s, steps).arrived|
  {
    RunAppend(s, steps, [ReadRdh(t)]);
    RunOne(Run(s, steps), ReadRdh(t));
  }

  /** With the lock free, the NIC can store a frame unless 63 descriptors wait, and the frame is then the youngest. */
  lemma {:induction false} NicStores(s: State, steps: seq<Step>, d: Desc)
    requires Init(s) && ValidDesc(d) && Run(s, steps).hwLock.None?
    ensures var r := Run(s, steps);
            Run(s, steps + [NicFill(d)]).arrived ==
              if |r.arrived| - |r.verdicts| < 63 then r.arrived + [d.buffer[..Min(d.length, 2048)]] else r.arrived
  {
    RunInv(s, steps);
    var r := Run(s, steps);
    DistInjective(r.lastRdh, r.rdh, r.rdt);
    RunAppend(s, steps, [NicFill(d)]);
    RunOne(r, NicFill(d));
  }

  /** What a pop hands over after any run. */
  ghost predicate HandsOver(r: State, d: State, size: nat, idle: bool) {
    && r.queue.frames != [] && d.queue.frames == r.queue.frames[1..]
    && d.queue.idleDrained == (if idle then (r.queue.idleDrained + 1) % 0x1_0000_0000 else r.queue.idleDrained)
    && |d.removed| == |r.removed| + 1 && d.removed[..|r.removed|] == r.removed
    && var m := d.removed[|r.removed|];
       m.frame == r.queue.frames[0] && m.idle == idle && m.bytes == m.frame[..Min(|m.frame|, size)]
  }

  /**
   After every run a consumer with a buffer gets the oldest queued frame, cut to the buffer;
   the idle drain gets it if and only if no one is waiting.
   */
  lemma {:induction false} ConsumerGets(s: State, steps: seq<Step>, size: nat)
    requires Init(s) && size > 0 && Run(s, steps).queue.frames != []
    ensures var r := Run(s, steps);
            && HandsOver(r, Run(s, steps + [Pop(size)]), size, false)
            && (r.waiting == {} ==> HandsOver(r, Run(s, steps + [PopIdle(size)]), size, true))
            && (r.waiting != {} ==> Run(s, steps + [PopIdle(size)]) == r)
  {
    RunInv(s, steps);
    var r := Run(s, steps);
    RunAppend(s, steps, [Pop(size)]);
    RunAppend(s, steps, [PopIdle(size)]);
    RunOne(r, Pop(size));
    RunOne(r, PopIdle(size));
  }

  /** A caller of e1000_recv_wait counts as waiting from its registration to its deregistration. */
  lemma {:induction false} WaitersCount(s: State, steps: seq<Step>, t: nat)
    requires Init(s)
    ensures var r := Run(s, steps);
            && Run(s, steps + [Register(t)]).waiting == r.waiting + {t}
            && Run(s, steps + [Deregister(t)]).waiting == r.waiting - {t}
  {
    var r := Run(s, steps);
    RunAppend(s, steps, [Register(t)]);
    RunAppend(s, steps, [Deregister(t)]);
    RunOne(r, Register(t));
    RunOne(r, Deregister(t));
  }
}
