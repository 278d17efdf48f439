/**
 The software receive queue of the e1000 driver: a 64-slot ring with a head, a
 tail and a count, guarded by rxq_lock.  The value type `Queue` is what the ring
 stands for, a bounded FIFO; class `SwRxRing` is the ring itself, and each of its
 methods is proved to do to the ring what the operation does to the FIFO.
 */
module RxQueue {
  import opened Bytes

  type Frame = seq<Byte>

  const QUEUE_LEN := 64
  const BUF_SIZE := 2048

  datatype Queue = Queue(frames: seq<Frame>, drops: nat, waiters: int, idleDrained: nat)

  /** The number of bytes the driver keeps of a frame the hardware reports as `len` long. */
  function CutLen(len: nat): nat {
    if len > BUF_SIZE then BUF_SIZE else len
  }

  /** FIFO view of a push: empty frames vanish, a full queue counts a drop. */
  function Enqueue(q: Queue, f: Frame): Queue {
    if f == [] then q
    else if |q.frames| >= QUEUE_LEN then q.(drops := (q.drops + 1) % TWO32)
    else q.(frames := q.frames + [f])
  }

  /** FIFO view of a pop. */
  function Dequeue(q: Queue): Queue
    requires q.frames != []
  {
    q.(frames := q.frames[1..])
  }

  /** What a consumer with a buffer of `size` bytes sees of a frame. */
  function Delivered(f: Frame, size: nat): Frame {
    if |f| > size then f[..size] else f
  }

  predicate AllSane(frames: seq<Frame>) {
    forall f :: f in frames ==> 0 < |f| <= BUF_SIZE
  }

  /** The `count` slots from `head` on, wrapping at the end of the ring: oldest frame first. */
  function Unroll(slots: seq<Frame>, head: nat, count: nat): (frames: seq<Frame>)
    requires |slots| == QUEUE_LEN && head < QUEUE_LEN && count <= QUEUE_LEN
    ensures |frames| == count
  {
    seq(count, k requires 0 <= k < count => slots[(head + k) % QUEUE_LEN])
  }

  /** Writing the slot at the tail appends at the young end. */
  lemma UnrollPush(slots: seq<Frame>, head: nat, count: nat, f: Frame)
    requires |slots| == QUEUE_LEN && head < QUEUE_LEN && count < QUEUE_LEN
    ensures Unroll(slots[(head + count) % QUEUE_LEN := f], head, count + 1) == Unroll(slots, head, count) + [f]
    ensures ((head + count) % QUEUE_LEN + 1) % QUEUE_LEN == (head + (count + 1)) % QUEUE_LEN
  {
    var after := Unroll(slots[(head + count) % QUEUE_LEN := f], head, count + 1);
    forall k | 0 <= k < count
      ensures after[k] == Unroll(slots, head, count)[k]
    {
      assert (head + k) % QUEUE_LEN != (head + count) % QUEUE_LEN;
    }
  }

  /** Clearing the slot at the head and advancing it removes the oldest frame. */
  lemma UnrollPop(slots: seq<Frame>, head: nat, count: nat)
    requires |slots| == QUEUE_LEN && head < QUEUE_LEN && 0 < count <= QUEUE_LEN
    ensures Unroll(slots[head := []], (head + 1) % QUEUE_LEN, count - 1) == Unroll(slots, head, count)[1..]
    ensures Unroll(slots, head, count)[0] == slots[head]
    ensures ((head + 1) % QUEUE_LEN + (count - 1)) % QUEUE_LEN == (head + count) % QUEUE_LEN
  {
    var after := Unroll(slots[head := []], (head + 1) % QUEUE_LEN, count - 1);
    forall k | 0 <= k < count - 1
      ensures after[k] == Unroll(slots, head, count)[k + 1]
    {
      assert ((head + 1) % QUEUE_LEN + k) % QUEUE_LEN == (head + (k + 1)) % QUEUE_LEN != head;
    }
  }

  class SwRxRing {
    var slots: array<Frame>
    var head: nat
    var tail: nat
    var count: nat
    var drops: nat
    var waiters: int
    var idleDrained: nat

    ghost predicate Shape()
      reads this
    {
      slots.Length == QUEUE_LEN && head < QUEUE_LEN && count <= QUEUE_LEN && tail == (head + count) % QUEUE_LEN
    }

    ghost function Frames(): (f: seq<Frame>)
      requires Shape()
      reads this, slots
    {
      Unroll(slots[..], head, count)
    }

    ghost predicate Valid()
      reads this, slots
    {
      Shape() && AllSane(Frames())
    }

    ghost function Abs(): Queue
      requires Valid()
      reads this, slots
    {
      Queue(Frames(), drops, waiters, idleDrained)
    }

    constructor ()
      ensures Valid() && fresh(slots)
      ensures Abs() == Queue([], 0, 0, 0)
    {
      slots := new Frame[QUEUE_LEN](_ => []);
      head, tail, count, drops, waiters, idleDrained := 0, 0, 0, 0, 0, 0;
    }

    /** sw_rx_push: `data` is the bytes behind the pointer, None the null pointer. */
    method Push(data: Option<Frame>, len: nat) returns (r: int)
      requires Valid()
      requires len < TWO16
      requires data.Some? ==> CutLen(len) <= |data.value|
      modifies this`tail, this`count, this`drops, slots
      ensures Valid()
      ensures data.None? ==> Abs() == old(Abs()) && r == 0
      ensures data.Some? ==> Abs() == Enqueue(old(Abs()), data.value[..CutLen(len)])
      ensures r == 1 <==> |Frames()| > |old(Frames())|
      ensures r == 0 || r == 1
    {
      if data.None? || len == 0 {
        return 0;
      }
      var n := len;
      if n > BUF_SIZE {
        n := BUF_SIZE;
      }
      if count >= QUEUE_LEN {
        drops := (drops + 1) % TWO32;
        return 0;
      }
      UnrollPush(slots[..], head, count, data.value[..n]);
      slots[tail] := data.value[..n];
      assert slots[..] == old(slots[..])[tail := data.value[..n]];
      assert AllSane(old(Frames()) + [data.value[..n]]);
      tail := (tail + 1) % QUEUE_LEN;
      count := count + 1;
      return 1;
    }

    /** The body shared by sw_rx_pop and e1000_rx_pop_idle once a frame is known to be there. */
    method TakeHead(size: nat) returns (bytes: Frame)
      requires Valid()
      requires 0 < count && 0 < size
      modifies this`head, this`count, slots
      ensures Valid()
      ensures Abs() == Dequeue(old(Abs()))
      ensures bytes == Delivered(old(Frames())[0], size) && bytes != []
    {
      var len := |slots[head]|;
      if len > size {
        len := size;
      }
      bytes := slots[head][..len];
      UnrollPop(slots[..], head, count);
      slots[head] := [];
      assert slots[..] == old(slots[..])[head := []];
      head := (head + 1) % QUEUE_LEN;
      count := count - 1;
    }

    /** sw_rx_pop: `haveBuf` is false for a null buffer; `bytes` is what was copied into it. */
    method Pop(haveBuf: bool, size: nat) returns (n: int, bytes: Frame)
      requires Valid()
      modifies this`head, this`count, slots
      ensures Valid()
      ensures !haveBuf || size == 0 ==> n == -1 && Abs() == old(Abs())
      ensures haveBuf && size > 0 && old(Frames()) == [] ==> n == 0 && Abs() == old(Abs())
      ensures haveBuf && size > 0 && old(Frames()) != [] ==>
                Abs() == Dequeue(old(Abs())) && bytes == Delivered(old(Frames())[0], size) && n == |bytes| > 0
    {
      bytes := [];
      if !haveBuf || size == 0 {
        return -1, bytes;
      }
      if count == 0 {
        return 0, bytes;
      }
      bytes := TakeHead(size);
      n := |bytes|;
    }

    /** e1000_rx_pop_idle: the waiter check and the pop happen under one lock. */
    method PopIdle(haveBuf: bool, size: nat) returns (n: int, bytes: Frame)
      requires Valid()
      modifies this`head, this`count, this`idleDrained, slots
      ensures Valid()
      ensures !haveBuf || size == 0 ==> n == 0 && Abs() == old(Abs())
      ensures haveBuf && size > 0 && waiters != 0 ==> n == -1 && Abs() == old(Abs())
      ensures haveBuf && size > 0 && waiters == 0 && old(Frames()) == [] ==> n == 0 && Abs() == old(Abs())
      ensures haveBuf && size > 0 && waiters == 0 && old(Frames()) != [] ==>
                && Abs() == Dequeue(old(Abs())).(idleDrained := (old(idleDrained) + 1) % TWO32)
                && bytes == Delivered(old(Frames())[0], size)
                && n == |bytes| > 0
    {
      bytes := [];
      if !haveBuf || size == 0 {
        return 0, bytes;
      }
      if waiters != 0 {
        return -1, bytes;
      }
      if count == 0 {
        return 0, bytes;
      }
      bytes := TakeHead(size);
      idleDrained := (idleDrained + 1) % TWO32;
      n := |bytes|;
    }

    /** The registration and deregistration halves of e1000_recv_wait. */
    method AddWaiter(delta: int)
      requires Valid()
      requires delta == 1 || delta == -1
      modifies this`waiters
      ensures Valid()
      ensures Abs() == old(Abs()).(waiters := old(waiters) + delta)
    {
      waiters := waiters + delta;
    }
  }
}
