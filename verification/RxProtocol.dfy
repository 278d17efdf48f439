/**
 The e1000 receive path as a protocol between the NIC and any number of driver
 threads.  The NIC fills the descriptor at RDH while RDH differs from RDT.  A
 thread holding hw_rx_lock chases RDH with last_rdh, pushes what it finds into the
 software queue and hands the descriptor back through RDT, one register access or
 lock region at a time, so the NIC and the other threads may act in between.

 A run is any sequence of steps; a step that is not enabled leaves the state alone.
 */
module RxProtocol {
  import opened Arithmetic
  import opened Bytes
  import opened RxQueue

  const NUM_DESC := 64

  /** A receive descriptor and its packet buffer, as the NIC last wrote them. */
  datatype Desc = Desc(length: nat, buffer: Frame)

  predicate ValidDesc(d: Desc) {
    d.length < TWO16 && BUF_SIZE <= |d.buffer|
  }

  /** The bytes of a descriptor that count as the received frame: at most 2048. */
  function Received(d: Desc): Frame
    requires ValidDesc(d)
  {
    d.buffer[..CutLen(d.length)]
  }

  /** Where a thread stands inside e1000_hw_rx_drain. */
  datatype Phase =
    | Unlocked                // does not hold hw_rx_lock
    | Reading                 // about to read RDH
    | Comparing(rdh: nat)     // about to compare the value read with last_rdh
    | Fetched(len: nat)       // has read and cut the length, about to push
    | Pushed                  // about to advance last_rdh
    | Advanced                // about to write RDT

  /** What became of a frame that the drain looked at. */
  datatype Verdict = Skipped | Queued | Dropped

  /** A frame leaving the queue, what the consumer got of it, and who was waiting at that moment. */
  datatype Removal = Removal(frame: Frame, size: nat, bytes: Frame, idle: bool, waiting: set<nat>)

  datatype State = State(
    ring: seq<Desc>,
    rdh: nat,
    rdt: nat,
    lastRdh: nat,
    hwLock: Option<nat>,
    phases: map<nat, Phase>,
    queue: Queue,
    packetCount: nat,
    waiting: set<nat>,        // threads between the two halves of e1000_recv_wait
    arrived: seq<Frame>,      // history: every frame the NIC has written
    seen: nat,                // history: how many frames had arrived when RDH was last read
    verdicts: seq<Verdict>,   // history: what the drain decided, frame by frame
    depths: seq<nat>,         // history: how many frames were queued when it decided
    removed: seq<Removal>)    // history: what left the queue, in order

  datatype Step =
    | NicFill(d: Desc)
    | LockHw(t: nat)
    | ReadRdh(t: nat)
    | Compare(t: nat)
    | PushFrame(t: nat)
    | Advance(t: nat)
    | WriteRdt(t: nat)
    | Pop(size: nat)
    | PopIdle(size: nat)
    | Register(t: nat)
    | Deregister(t: nat)

  function PhaseOf(s: State, t: nat): Phase {
    if t in s.phases then s.phases[t] else Unlocked
  }

  function SetPhase(s: State, t: nat, p: Phase): State {
    s.(phases := s.phases[t := p])
  }

  predicate ValidState(s: State) {
    && |s.ring| == NUM_DESC
    && (forall i :: 0 <= i < NUM_DESC ==> ValidDesc(s.ring[i]))
    && s.rdh < NUM_DESC && s.rdt < NUM_DESC && s.lastRdh < NUM_DESC
  }

  predicate Enabled(s: State, a: Step)
    requires ValidState(s)
  {
    match a
    case NicFill(d) => s.rdh != s.rdt && ValidDesc(d)
    case LockHw(t) => s.hwLock.None? && PhaseOf(s, t).Unlocked?
    case ReadRdh(t) => PhaseOf(s, t).Reading?
    case Compare(t) => PhaseOf(s, t).Comparing?
    case PushFrame(t) => PhaseOf(s, t).Fetched? && PhaseOf(s, t).len <= |s.ring[s.lastRdh].buffer|
    case Advance(t) => PhaseOf(s, t).Pushed?
    case WriteRdt(t) => PhaseOf(s, t).Advanced?
    case Pop(size) => s.queue.frames != [] && size > 0
    case PopIdle(size) => s.queue.waiters == 0 && s.queue.frames != [] && size > 0
    case Register(t) => t !in s.waiting
    case Deregister(t) => t in s.waiting
  }

  function Remove(s: State, size: nat, idle: bool): State
    requires s.queue.frames != []
  {
    var f := s.queue.frames[0];
    s.(queue := Dequeue(s.queue), removed := s.removed + [Removal(f, size, Delivered(f, size), idle, s.waiting)])
  }

  function Fill(s: State, d: Desc): State
    requires ValidState(s) && ValidDesc(d)
  {
    s.(ring := s.ring[s.rdh := d], rdh := (s.rdh + 1) % NUM_DESC, arrived := s.arrived + [Received(d)])
  }

  function PushStep(s: State, t: nat, len: nat): State
    requires ValidState(s) && len <= |s.ring[s.lastRdh].buffer|
  {
    var f := s.ring[s.lastRdh].buffer[..len];
    var q := Enqueue(s.queue, f);
    var v := if f == [] then Skipped else if |q.frames| > |s.queue.frames| then Queued else Dropped;
    var n := if v.Queued? then (s.packetCount + 1) % TWO32 else s.packetCount;
    SetPhase(s.(queue := q, packetCount := n, verdicts := s.verdicts + [v], depths := s.depths + [|s.queue.frames|]), t, Pushed)
  }

  function Apply(s: State, a: Step): (r: State)
    requires ValidState(s)
    ensures ValidState(r)
  {
    if !Enabled(s, a) then s else
    match a
    case NicFill(d) => Fill(s, d)
    case LockHw(t) => SetPhase(s.(hwLock := Some(t)), t, Reading)
    case ReadRdh(t) => SetPhase(s.(seen := |s.arrived|), t, Comparing(s.rdh))
    case Compare(t) =>
      if PhaseOf(s, t).rdh == s.lastRdh
      then SetPhase(s.(hwLock := None), t, Unlocked)
      else SetPhase(s, t, Fetched(CutLen(s.ring[s.lastRdh].length)))
    case PushFrame(t) => PushStep(s, t, PhaseOf(s, t).len)
    case Advance(t) => SetPhase(s.(lastRdh := (s.lastRdh + 1) % NUM_DESC), t, Advanced)
    case WriteRdt(t) => SetPhase(s.(rdt := (s.lastRdh + NUM_DESC - 1) % NUM_DESC), t, Reading)
    case Pop(size) => Remove(s, size, false)
    case PopIdle(size) =>
      var r := Remove(s, size, true);
      r.(queue := r.queue.(idleDrained := (s.queue.idleDrained + 1) % TWO32))
    case Register(t) => s.(queue := s.queue.(waiters := s.queue.waiters + 1), waiting := s.waiting + {t})
    case Deregister(t) => s.(queue := s.queue.(waiters := s.queue.waiters - 1), waiting := s.waiting - {t})
  }

  /** The state e1000_init leaves: RDH 0, RDT 63, last_rdh 0, nothing queued. */
  predicate Init(s: State) {
    && ValidState(s)
    && s.rdh == 0 && s.rdt == NUM_DESC - 1 && s.lastRdh == 0
    && s.hwLock == None && s.phases == map[]
    && s.queue == Queue([], 0, 0, 0) && s.packetCount == 0 && s.waiting == {}
    && s.arrived == [] && s.seen == 0 && s.verdicts == [] && s.depths == [] && s.removed == []
  }

  ghost function Run(s: State, steps: seq<Step>): (r: State)
    requires ValidState(s)
    ensures ValidState(r)
    decreases |steps|
  {
    if steps == [] then s
    else Apply(Run(s, steps[..|steps| - 1]), steps[|steps| - 1])
  }

  // ---------------------------------------------------------------- ring arithmetic

  /** How far `b` is ahead of `a` on the descriptor ring. */
  function Dist(a: nat, b: nat): nat
    requires a < NUM_DESC && b < NUM_DESC
  {
    (b + NUM_DESC - a) % NUM_DESC
  }

  function Next(a: nat): nat {
    (a + 1) % NUM_DESC
  }

  /** The descriptor `k` places after `a`. */
  function Slot(a: nat, k: nat): nat {
    (a + k) % NUM_DESC
  }

  /** The frames held by the descriptors from `a` up to but not including `b`. */
  function Window(ring: seq<Desc>, a: nat, b: nat): (w: seq<Frame>)
    requires |ring| == NUM_DESC && a < NUM_DESC && b < NUM_DESC
    requires forall i :: 0 <= i < NUM_DESC ==> ValidDesc(ring[i])
    ensures |w| == Dist(a, b)
  {
    seq(Dist(a, b), k requires 0 <= k < Dist(a, b) => Received(ring[Slot(a, k)]))
  }

  /** Filling at `b` appends to the window, provided `b` is not the last slot before `a`. */
  lemma WindowFill(ring: seq<Desc>, a: nat, b: nat, d: Desc)
    requires |ring| == NUM_DESC && a < NUM_DESC && b < NUM_DESC && ValidDesc(d)
    requires forall i :: 0 <= i < NUM_DESC ==> ValidDesc(ring[i])
    requires Dist(a, b) < NUM_DESC - 1
    ensures Dist(a, Next(b)) == Dist(a, b) + 1
    ensures Window(ring[b := d], a, Next(b)) == Window(ring, a, b) + [Received(d)]
  {
    assert Dist(a, Next(b)) == Dist(a, b) + 1;
    forall k | 0 <= k <= Dist(a, b)
      ensures Slot(a, k) == b <==> k == Dist(a, b)
    {
    }
    assert Window(ring[b := d], a, Next(b)) == Window(ring, a, b) + [Received(d)];
  }

  /** The oldest descriptor of a non-empty window is the one at its start. */
  lemma WindowAdvance(ring: seq<Desc>, a: nat, b: nat)
    requires |ring| == NUM_DESC && a < NUM_DESC && b < NUM_DESC && a != b
    requires forall i :: 0 <= i < NUM_DESC ==> ValidDesc(ring[i])
    ensures Dist(Next(a), b) == Dist(a, b) - 1
    ensures Window(ring, a, b) == [Received(ring[a])] + Window(ring, Next(a), b)
  {
    assert Dist(Next(a), b) == Dist(a, b) - 1;
    forall k | 1 <= k < Dist(a, b)
      ensures Slot(a, k) == Slot(Next(a), k - 1)
    {
    }
    assert Window(ring, a, b) == [Received(ring[a])] + Window(ring, Next(a), b);
  }

  lemma DistFacts(a: nat, b: nat)
    requires a < NUM_DESC && b < NUM_DESC
    ensures Dist(a, b) == 0 <==> a == b
    ensures Dist(a, (a + NUM_DESC - 1) % NUM_DESC) == NUM_DESC - 1
    ensures Dist(Next(a), (a + NUM_DESC - 1) % NUM_DESC) == NUM_DESC - 2
    ensures (Next(a) + NUM_DESC - 1) % NUM_DESC == a
    ensures a != b ==> Dist(a, b) == Dist(Next(a), b) + 1
  {
  }

  lemma DistInjective(a: nat, b: nat, c: nat)
    requires a < NUM_DESC && b < NUM_DESC && c < NUM_DESC
    ensures Dist(a, b) == Dist(a, c) ==> b == c
  {
    assert Slot(a, Dist(a, b)) == b && Slot(a, Dist(a, c)) == c;
  }

  // ---------------------------------------------------------------- histories

  /** The frames of a history that were queued, in order. */
  function QueuedOf(frames: seq<Frame>, v: seq<Verdict>): seq<Frame>
    requires |frames| == |v|
    decreases |v|
  {
    if v == [] then [] else
    var n := |v| - 1;
    QueuedOf(frames[..n], v[..n]) + (if v[n].Queued? then [frames[n]] else [])
  }

  function CountOf(v: seq<Verdict>, x: Verdict): nat
    decreases |v|
  {
    if v == [] then 0 else CountOf(v[..|v| - 1], x) + (if v[|v| - 1] == x then 1 else 0)
  }

  function NonEmptyCount(frames: seq<Frame>): nat
    decreases |frames|
  {
    if frames == [] then 0
    else NonEmptyCount(frames[..|frames| - 1]) + (if frames[|frames| - 1] == [] then 0 else 1)
  }

  function RemovedFrames(removed: seq<Removal>): seq<Frame> {
    seq(|removed|, i requires 0 <= i < |removed| => removed[i].frame)
  }

  // ---------------------------------------------------------------- invariant

  /** hw_rx_lock admits one thread to the drain. */
  predicate LockInv(s: State) {
    forall t :: t in s.phases ==> (!s.phases[t].Unlocked? <==> s.hwLock == Some(t))
  }

  function Current(s: State): Phase {
    if s.hwLock.Some? then PhaseOf(s, s.hwLock.value) else Unlocked
  }

  /** The first descriptor whose frame has not been pushed yet. */
  function Undrained(s: State): nat
    requires ValidState(s)
  {
    if Current(s).Pushed? then Next(s.lastRdh) else s.lastRdh
  }

  /** RDT is one behind last_rdh, except between the two statements that move them together. */
  predicate TailInv(s: State)
    requires ValidState(s)
  {
    Dist(s.lastRdh, s.rdt) == (if Current(s).Advanced? then NUM_DESC - 2 else NUM_DESC - 1)
  }

  predicate HeadInv(s: State)
    requires ValidState(s)
  {
    && Dist(s.lastRdh, s.rdh) <= Dist(s.lastRdh, s.rdt)
    && (s.hwLock.Some? ==> !Current(s).Unlocked?)
    && match Current(s)
       case Comparing(r) =>
         && r < NUM_DESC && Dist(s.lastRdh, r) <= Dist(s.lastRdh, s.rdh)
         && |s.verdicts| + Dist(s.lastRdh, r) == s.seen
       case Fetched(len) => s.rdh != s.lastRdh && len == CutLen(s.ring[s.lastRdh].length)
       case Pushed => s.rdh != s.lastRdh
       case _ => true
  }

  /** Every frame written and not yet looked at still sits untouched in its descriptor, in order. */
  predicate PendingInv(s: State)
    requires ValidState(s)
  {
    && |s.verdicts| <= |s.arrived|
    && s.arrived[|s.verdicts|..] == Window(s.ring, Undrained(s), s.rdh)
  }

  /** Every frame looked at was queued once, in order, or counted as dropped, or empty. */
  predicate QueueInv(s: State) {
    && |s.verdicts| <= |s.arrived|
    && |s.queue.frames| <= QUEUE_LEN
    && QueuedOf(s.arrived[..|s.verdicts|], s.verdicts) == RemovedFrames(s.removed) + s.queue.frames
    && Counted(s)
    && (forall i :: 0 <= i < |s.verdicts| ==> (s.verdicts[i].Skipped? <==> s.arrived[i] == []))
    && DropsWhenFull(s)
  }

  /** sw_rx_drops and rx_packet_count. */
  predicate Counted(s: State) {
    && s.queue.drops == CountOf(s.verdicts, Dropped) % TWO32
    && s.packetCount == CountOf(s.verdicts, Queued) % TWO32
  }

  /** A frame was dropped if and only if it was not empty and 64 frames were queued. */
  predicate DropsWhenFull(s: State) {
    && |s.depths| == |s.verdicts| <= |s.arrived|
    && forall i :: 0 <= i < |s.verdicts| ==>
         (s.verdicts[i].Dropped? <==> s.arrived[i] != [] && s.depths[i] == QUEUE_LEN)
  }

  predicate WaiterInv(s: State) {
    && s.queue.waiters == |s.waiting|
    && forall i :: 0 <= i < |s.removed| ==>
         && s.removed[i].bytes == Delivered(s.removed[i].frame, s.removed[i].size)
         && (s.removed[i].idle ==> s.removed[i].waiting == {})
  }

  ghost predicate Inv(s: State) {
    ValidState(s) && LockInv(s) && TailInv(s) && HeadInv(s) && PendingInv(s) && QueueInv(s) && WaiterInv(s)
  }

  lemma InitInv(s: State)
    requires Init(s)
    ensures Inv(s)
  {
  }

  /** While a fill is enabled, the descriptor at RDH is not one that waits to be drained. */
  lemma FillRoom(s: State)
    requires ValidState(s) && HeadInv(s) && TailInv(s) && s.rdh != s.rdt
    ensures Dist(s.lastRdh, s.rdh) < Dist(s.lastRdh, s.rdt)
    ensures Dist(Undrained(s), s.rdh) <= Dist(s.lastRdh, s.rdh) < NUM_DESC - 1
  {
    DistInjective(s.lastRdh, s.rdh, s.rdt);
    DistFacts(s.lastRdh, s.rdh);
  }

  lemma FillPending(s: State, d: Desc)
    requires ValidState(s) && HeadInv(s) && TailInv(s) && PendingInv(s) && Enabled(s, NicFill(d))
    ensures PendingInv(Fill(s, d))
  {
    FillRoom(s);
    WindowFill(s.ring, Undrained(s), s.rdh, d);
    assert Fill(s, d).arrived[|s.verdicts|..] == s.arrived[|s.verdicts|..] + [Received(d)];
  }

  lemma FillHead(s: State, d: Desc)
    requires ValidState(s) && HeadInv(s) && TailInv(s) && Enabled(s, NicFill(d))
    ensures HeadInv(Fill(s, d)) && TailInv(Fill(s, d))
  {
    FillRoom(s);
    WindowFill(s.ring, s.lastRdh, s.rdh, d);
    DistFacts(s.lastRdh, s.rdh);
  }

  /** The NIC never overwrites a descriptor that still waits to be drained. */
  lemma FillInv(s: State, d: Desc)
    requires Inv(s) && Enabled(s, NicFill(d))
    ensures Inv(Apply(s, NicFill(d)))
  {
    FillPending(s, d);
    FillHead(s, d);
    assert Fill(s, d).arrived[..|s.verdicts|] == s.arrived[..|s.verdicts|];
  }

  /** Reading and comparing leave the registers, the queue and the histories alone. */
  lemma InspectInv(s: State, a: Step)
    requires Inv(s) && Enabled(s, a) && (a.LockHw? || a.ReadRdh? || a.Compare?)
    ensures Inv(Apply(s, a))
  {
    DistFacts(s.lastRdh, s.rdh);
    if a.Compare? {
      DistFacts(s.lastRdh, PhaseOf(s, a.t).rdh);
    }
  }

  lemma AdvanceInv(s: State, t: nat)
    requires Inv(s) && Enabled(s, Advance(t))
    ensures Inv(Apply(s, Advance(t)))
  {
    DistFacts(s.lastRdh, s.rdh);
    DistFacts(s.lastRdh, s.rdt);
  }

  lemma WriteRdtInv(s: State, t: nat)
    requires Inv(s) && Enabled(s, WriteRdt(t))
    ensures Inv(Apply(s, WriteRdt(t)))
  {
    DistFacts(s.lastRdh, s.rdh);
  }

  /** The frame about to be pushed is the oldest one not looked at yet. */
  lemma PushFront(s: State, t: nat)
    requires ValidState(s) && LockInv(s) && HeadInv(s) && PendingInv(s) && PhaseOf(s, t).Fetched?
    ensures s.hwLock == Some(t) && |s.verdicts| < |s.arrived|
    ensures PhaseOf(s, t).len <= |s.ring[s.lastRdh].buffer|
    ensures s.arrived[|s.verdicts|] == s.ring[s.lastRdh].buffer[..PhaseOf(s, t).len]
    ensures s.arrived[|s.verdicts| + 1..] == Window(s.ring, Next(s.lastRdh), s.rdh)
  {
    WindowAdvance(s.ring, s.lastRdh, s.rdh);
    var n := |s.verdicts|;
    assert s.arrived[n] == s.arrived[n..][0];
    assert s.arrived[n + 1..] == s.arrived[n..][1..];
  }

  /** Histories that are one frame longer. */
  lemma OneMoreVerdict(frames: seq<Frame>, v: seq<Verdict>, x: Verdict)
    requires |v| < |frames|
    ensures QueuedOf(frames[..|v| + 1], v + [x])
         == QueuedOf(frames[..|v|], v) + (if x.Queued? then [frames[|v|]] else [])
    ensures forall y :: CountOf(v + [x], y) == CountOf(v, y) + if x == y then 1 else 0
  {
    assert (v + [x])[..|v|] == v && frames[..|v| + 1][..|v|] == frames[..|v|];
  }

  lemma PushCounted(s: State, t: nat, len: nat)
    requires ValidState(s) && Counted(s) && len <= |s.ring[s.lastRdh].buffer|
    requires |s.verdicts| < |s.arrived|
    ensures Counted(PushStep(s, t, len))
  {
    var r, v := PushStep(s, t, len), s.verdicts;
    OneMoreVerdict(s.arrived, v, r.verdicts[|v|]);
    ModAdd(CountOf(v, Dropped), 1, TWO32);
    ModAdd(CountOf(v, Queued), 1, TWO32);
  }

  lemma PushQueue(s: State, t: nat, len: nat)
    requires ValidState(s) && QueueInv(s) && |s.verdicts| < |s.arrived|
    requires len <= |s.ring[s.lastRdh].buffer|
    requires s.arrived[|s.verdicts|] == s.ring[s.lastRdh].buffer[..len]
    ensures QueueInv(PushStep(s, t, len))
  {
    var r, n := PushStep(s, t, len), |s.verdicts|;
    OneMoreVerdict(s.arrived, s.verdicts, r.verdicts[n]);
    PushCounted(s, t, len);
    var gone, old', f := RemovedFrames(s.removed), s.queue.frames, s.arrived[n];
    assert gone + (old' + [f]) == gone + old' + [f];
    assert gone + old' + [] == gone + old';
  }

  lemma PushInv(s: State, t: nat)
    requires Inv(s) && Enabled(s, PushFrame(t))
    ensures Inv(Apply(s, PushFrame(t)))
  {
    PushFront(s, t);
    PushQueue(s, t, PhaseOf(s, t).len);
  }

  lemma RemoveInv(s: State, a: Step)
    requires Inv(s) && Enabled(s, a) && (a.Pop? || a.PopIdle?)
    ensures Inv(Apply(s, a))
  {
    var r := Remove(s, a.size, a.PopIdle?);
    assert RemovedFrames(r.removed) + r.queue.frames == RemovedFrames(s.removed) + s.queue.frames;
  }

  lemma WaiterStepInv(s: State, a: Step)
    requires Inv(s) && Enabled(s, a) && (a.Register? || a.Deregister?)
    ensures Inv(Apply(s, a))
  {
  }

  lemma StepInv(s: State, a: Step)
    requires Inv(s)
    ensures Inv(Apply(s, a))
  {
    if Enabled(s, a) {
      match a
      case NicFill(d) => FillInv(s, d);
      case PushFrame(t) => PushInv(s, t);
      case Pop(_) => RemoveInv(s, a);
      case PopIdle(_) => RemoveInv(s, a);
      case Register(_) => WaiterStepInv(s, a);
      case Deregister(_) => WaiterStepInv(s, a);
      case Advance(t) => AdvanceInv(s, t);
      case WriteRdt(t) => WriteRdtInv(s, t);
      case _ => InspectInv(s, a);
    }
  }

  // ---------------------------------------------------------------- main results

  /** The invariant holds after every run from e1000_init. */
  lemma {:induction false} RunInv(s: State, steps: seq<Step>)
    requires Init(s)
    ensures Inv(Run(s, steps))
    decreases |steps|
  {
    if steps == [] {
      InitInv(s);
    } else {
      RunInv(s, steps[..|steps| - 1]);
      StepInv(Run(s, steps[..|steps| - 1]), steps[|steps| - 1]);
    }
  }

  lemma {:induction false} CountSplit(frames: seq<Frame>, v: seq<Verdict>)
    requires |frames| == |v|
    requires forall i :: 0 <= i < |v| ==> (v[i].Skipped? <==> frames[i] == [])
    ensures NonEmptyCount(frames) == |QueuedOf(frames, v)| + CountOf(v, Dropped)
    decreases |v|
  {
    if v != [] {
      CountSplit(frames[..|v| - 1], v[..|v| - 1]);
    }
  }

  /**
   Conservation over every run: the frames taken out plus the frames still queued are
   exactly the queued ones in arrival order; what is not yet looked at sits in the
   descriptors in arrival order; and a non-empty frame is lost only when the queue is full,
   and then it is counted.
   */
  lemma {:induction false} FramesConserved(s: State, steps: seq<Step>)
    requires Init(s)
    ensures var r := Run(s, steps);
            && |r.verdicts| <= |r.arrived|
            && QueuedOf(r.arrived[..|r.verdicts|], r.verdicts) == RemovedFrames(r.removed) + r.queue.frames
            && r.arrived[|r.verdicts|..] == Window(r.ring, Undrained(r), r.rdh)
            && NonEmptyCount(r.arrived[..|r.verdicts|]) == |r.removed| + |r.queue.frames| + CountOf(r.verdicts, Dropped)
            && r.queue.drops == CountOf(r.verdicts, Dropped) % TWO32
            && |r.queue.frames| <= QUEUE_LEN && DropsWhenFull(r)
  {
    RunInv(s, steps);
    var r := Run(s, steps);
    CountSplit(r.arrived[..|r.verdicts|], r.verdicts);
  }

  lemma TailIndex(s: State)
    requires ValidState(s) && TailInv(s) && s.hwLock.None?
    ensures s.rdt == (s.lastRdh + NUM_DESC - 1) % NUM_DESC
  {
  }

  /** At most one thread is in the drain, and whenever none is, RDT is one behind last_rdh. */
  lemma {:induction false} TailFollowsHead(s: State, steps: seq<Step>, t: nat, u: nat)
    requires Init(s)
    ensures var r := Run(s, steps);
            && (r.hwLock.None? ==> r.rdt == (r.lastRdh + NUM_DESC - 1) % NUM_DESC)
            && (!PhaseOf(r, t).Unlocked? && !PhaseOf(r, u).Unlocked? ==> t == u)
  {
    RunInv(s, steps);
    var r := Run(s, steps);
    if r.hwLock.None? {
      TailIndex(r);
    }
  }

  /**
   rx_waiters counts the callers inside e1000_recv_wait, and the idle drain took
   frames only at moments when there was none.
   */
  lemma {:induction false} IdleNeverSteals(s: State, steps: seq<Step>)
    requires Init(s)
    ensures var r := Run(s, steps);
            && r.queue.waiters == |r.waiting|
            && (forall i :: 0 <= i < |r.removed| && r.removed[i].idle ==> r.removed[i].waiting == {})
  {
    RunInv(s, steps);
  }
}
