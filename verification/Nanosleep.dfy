/**
 Tick arithmetic of kernel_nanosleep: rounding a request up to timer ticks, reporting what
 is left of an interrupted sleep, and sleeping again on that remainder.
 */
module Nanosleep {
  import opened Arithmetic
  import opened Bytes

  const NSEC: int := 1_000_000_000
  const DEFAULT_HZ := 100

  datatype Timespec = Timespec(sec: int, nsec: int)

  predicate ValidTimespec(t: Timespec) {
    0 <= t.sec && 0 <= t.nsec < NSEC
  }

  /** The tick count without the 64-bit wrap. */
  function Ticks(t: Timespec, freq: nat): nat
    requires ValidTimespec(t)
  {
    MulNonNegative(t.sec, freq);
    MulNonNegative(t.nsec, freq);
    t.sec * freq + (t.nsec * freq + 999_999_999) / NSEC
  }

  /** timer_get_frequency returns 32 bits. */
  type Hertz = f: nat | f < TWO32

  /** The sum as the kernel computes it, every operation in 64 bits. */
  function Total64(t: Timespec, freq: Hertz): nat
    requires ValidTimespec(t)
  {
    (t.sec * freq % TWO64 + (t.nsec * freq % TWO64 + 999_999_999) % TWO64 / NSEC) % TWO64
  }

  /** With a 32-bit frequency only the whole sum can wrap. */
  lemma TotalWraps(t: Timespec, freq: Hertz)
    requires ValidTimespec(t)
    ensures Total64(t, freq) == Ticks(t, freq) % TWO64
  {
    MulNonNegative(t.sec, freq);
    MulNonNegative(t.nsec, freq);
    MulLe(t.nsec, NSEC, freq);
    WrapSum(t.sec * freq, t.nsec * freq);
  }

  lemma WrapSum(p: nat, q: nat)
    requires q <= NSEC * TWO32
    ensures (p % TWO64 + (q % TWO64 + 999_999_999) % TWO64 / NSEC) % TWO64 == (p + (q + 999_999_999) / NSEC) % TWO64
  {
    DivModUnique(q, TWO64, 0, q);
    DivModUnique(q + 999_999_999, TWO64, 0, q + 999_999_999);
    ModAdd(p, (q + 999_999_999) / NSEC, TWO64);
  }

  /** The tick count the kernel arms, with its floor of one for a non-zero request. */
  function ArmedTicks(t: Timespec, freq: Hertz): nat
    requires ValidTimespec(t)
  {
    var total := Total64(t, freq);
    if total == 0 && (t.sec != 0 || t.nsec != 0) then 1 else total
  }

  /** Nanoseconds asked for, times ticks per second. */
  function Request(t: Timespec, freq: nat): int {
    (t.sec * NSEC + t.nsec) * freq
  }

  lemma CeilLeast(a: nat, m: int)
    ensures m * NSEC >= a <==> m >= (a + 999_999_999) / NSEC
  {
    var c := (a + 999_999_999) / NSEC;
    assert c * NSEC >= a && (c - 1) * NSEC < a;
  }

  /** The tick count is the least number of whole ticks that covers the request. */
  lemma TicksLeast(t: Timespec, freq: nat, n: int)
    requires ValidTimespec(t)
    ensures n * NSEC >= Request(t, freq) <==> n >= Ticks(t, freq)
  {
    MulNonNegative(t.nsec, freq);
    CeilLeast(t.nsec * freq, n - t.sec * freq);
    assert Request(t, freq) == t.sec * freq * NSEC + t.nsec * freq;
    assert (n - t.sec * freq) * NSEC == n * NSEC - t.sec * freq * NSEC;
  }

  /** The kernel arms exactly that number if and only if it fits 64 bits. */
  lemma ArmedIsLeast(t: Timespec, freq: Hertz)
    requires ValidTimespec(t) && freq > 0
    ensures ArmedTicks(t, freq) == Ticks(t, freq) <==> Ticks(t, freq) < TWO64
  {
    TotalWraps(t, freq);
    if t.sec != 0 || t.nsec != 0 {
      TicksPositive(t, freq);
    }
  }

  /** A request however short sleeps at least one tick. */
  lemma TicksPositive(t: Timespec, freq: Hertz)
    requires ValidTimespec(t) && freq > 0 && (t.sec != 0 || t.nsec != 0)
    ensures Ticks(t, freq) >= 1 && ArmedTicks(t, freq) >= 1
  {
    if t.sec > 0 {
      MulAtLeast(freq, t.sec);
      assert freq * t.sec == t.sec * freq;
      MulNonNegative(t.nsec, freq);
    } else {
      MulAtLeast(freq, t.nsec);
      assert freq * t.nsec == t.nsec * freq;
    }
  }

  // ---------------------------------------------------------------- remainders

  /** What an interrupted sleep reports with `left` ticks to go. */
  function Remainder(left: nat, freq: nat): Timespec
    requires freq > 0
  {
    Timespec(left / freq, left % freq * (NSEC / freq))
  }

  lemma RemainderValid(left: nat, freq: nat)
    requires freq > 0
    ensures ValidTimespec(Remainder(left, freq))
  {
    var m, q := left % freq, NSEC / freq;
    MulNonNegative(m, q);
    if q > 0 {
      MulLe(m + 1, freq, q);
      assert (m + 1) * q == m * q + q;
      assert freq * q <= NSEC;
    }
  }

  /** Sleeping again on the remainder arms the ticks that were left, less what the division lost. */
  lemma RearmTicks(left: nat, freq: nat)
    requires freq > 0
    ensures ValidTimespec(Remainder(left, freq))
    ensures Ticks(Remainder(left, freq), freq) == left - left % freq * (NSEC % freq) / NSEC
  {
    RemainderValid(left, freq);
    var m, q, r := left % freq, NSEC / freq, NSEC % freq;
    MulNonNegative(m, r);
    assert m * q * freq == m * NSEC - m * r by {
      assert NSEC == freq * q + r;
      assert m * (freq * q + r) == m * (freq * q) + m * r;
      assert m * (freq * q) == m * q * freq;
    }
    CeilBelow(m, m * r);
    assert left == left / freq * freq + m;
  }

  lemma CeilBelow(m: int, x: nat)
    ensures (m * NSEC - x + 999_999_999) / NSEC == m - x / NSEC
  {
  }

  /** A restart arms exactly the ticks that were left when the loss is below one tick. */
  lemma RearmExact(left: nat, freq: nat)
    requires freq > 0
    ensures ValidTimespec(Remainder(left, freq))
    ensures Ticks(Remainder(left, freq), freq) == left <==> left % freq * (NSEC % freq) < NSEC
  {
    RearmTicks(left, freq);
    MulNonNegative(left % freq, NSEC % freq);
  }

  /** The timer frequencies at which no interruption ever loses a tick. */
  predicate Lossless(freq: nat)
    requires freq > 0
  {
    (freq - 1) * (NSEC % freq) < NSEC
  }

  lemma LosslessIsExact(freq: nat)
    requires freq > 0
    ensures Lossless(freq) <==>
              forall left: nat :: ValidTimespec(Remainder(left, freq)) && Ticks(Remainder(left, freq), freq) == left
  {
    var r := NSEC % freq;
    forall left: nat
      ensures ValidTimespec(Remainder(left, freq))
      ensures Lossless(freq) ==> Ticks(Remainder(left, freq), freq) == left
    {
      RearmExact(left, freq);
      MulLe(left % freq, freq - 1, r);
    }
    RearmExact(freq - 1, freq);
    DivModUnique(freq - 1, freq, 0, freq - 1);
    if !Lossless(freq) {
      var left: nat := freq - 1;
      assert Ticks(Remainder(left, freq), freq) != left;
    }
  }

  /** Every frequency up to the square root of 10^9 is lossless. */
  lemma SlowTimersLossless(freq: nat)
    requires 0 < freq && freq * freq <= NSEC
    ensures Lossless(freq)
  {
    MulLe(NSEC % freq, freq, freq);
    MulLe(freq - 1, freq, NSEC % freq);
    assert freq * (NSEC % freq) == NSEC % freq * freq;
    if freq > 1 {
      StrictSquare(freq, NSEC % freq);
    }
  }

  lemma StrictSquare(f: int, r: int)
    requires f > 1 && 0 <= r < f
    ensures (f - 1) * r < f * f
  {
    MulLe(r, f - 1, f - 1);
    assert (f - 1) * r == r * (f - 1);
    assert (f - 1) * (f - 1) == f * f - 2 * f + 1;
  }

  // ---------------------------------------------------------------- the timer

  const PIT_CLOCK: int := 1_193_182

  /** The divisor pit_init programs for a frequency asked for. */
  function PitDivisor(asked: Hertz): (d: nat)
    ensures 1 <= d <= 65535
  {
    var f := if asked == 0 then DEFAULT_HZ else if asked > PIT_CLOCK then PIT_CLOCK else asked;
    var d := (PIT_CLOCK + f / 2) / f;
    if d == 0 then 1 else if d > 65535 then 65535 else d
  }

  /**
   The divisor is the whole number nearest to the clock divided by the frequency asked for, at
   most 65535 and at least 1; 0 Hz asks for 100.
   */
  lemma PitNearest(asked: Hertz)
    ensures asked == 0 ==> PitDivisor(asked) == 11932
    ensures 1 <= asked <= 18 ==> PitDivisor(asked) == 65535
    ensures 19 <= asked <= 1_193_182 ==> 2 * 1_193_182 - asked <= 2 * (PitDivisor(asked) * asked) <= 2 * 1_193_182 + asked
    ensures asked > 1_193_182 ==> PitDivisor(asked) == 1
  {
    if 0 < asked <= PIT_CLOCK {
      PitQuotient(asked, (PIT_CLOCK + asked / 2) / asked);
    }
  }

  lemma PitQuotient(f: int, d: int)
    requires 0 < f <= PIT_CLOCK && d == (PIT_CLOCK + f / 2) / f
    ensures 2 * PIT_CLOCK - f <= 2 * (d * f) <= 2 * PIT_CLOCK + f
    ensures d >= 1 && (f >= 19 ==> d <= 65535) && (f <= 18 ==> d >= 65535)
  {
    var x, p := PIT_CLOCK + f / 2, d * f;
    assert x == f * d + x % f && f * d == p;
    assert f - 1 <= 2 * (f / 2) <= f;
    PitRange(f, d, p);
  }

  lemma PitRange(f: int, d: int, p: int)
    requires 0 < f <= PIT_CLOCK && p == d * f && 2 * PIT_CLOCK - f <= 2 * p <= 2 * PIT_CLOCK + f
    ensures d >= 1 && (f >= 19 ==> d <= 65535) && (f <= 18 ==> d >= 65535)
  {
    if d < 1 {
      MulLe(d, 0, f);
    }
    if f >= 19 && d > 65535 {
      MulLe(65536, d, f);
    }
    if f <= 18 && d < 65535 {
      MulLe(d, 65534, f);
    }
  }

  /** The frequency the timer then reports. */
  function PitFrequency(asked: Hertz): Hertz {
    PIT_CLOCK / PitDivisor(asked)
  }

  /** With the divisor 29 the timer reports 41 144 Hz, and there 41 143 ticks to go become 41 142. */
  lemma FastTimerLoses()
    ensures PitDivisor(41144) == 29 && PitFrequency(41144) == 41144
    ensures !Lossless(41144)
    ensures ValidTimespec(Remainder(41144 - 1, 41144)) && Ticks(Remainder(41144 - 1, 41144), 41144) == 41144 - 2
  {
    RearmTicks(41144 - 1, 41144);
  }

  /** The whole ticks of a sleep, `d` clock periods each, cover the request. */
  predicate CoversRequest(t: Timespec, d: nat)
    requires ValidTimespec(t) && d > 0
  {
    Ticks(t, PIT_CLOCK / d) * d * NSEC >= (t.sec * NSEC + t.nsec) * PIT_CLOCK
  }

  /**
   The reported frequency is rounded down, so counted in clock periods the ticks armed cover
   every request if and only if the divisor divides the clock.
   */
  lemma TicksCoverRequests(d: nat)
    requires 0 < d
    ensures (forall t: Timespec :: ValidTimespec(t) ==> CoversRequest(t, d)) <==> PIT_CLOCK % d == 0
  {
    if PIT_CLOCK % d == 0 {
      forall t: Timespec | ValidTimespec(t)
        ensures CoversRequest(t, d)
      {
        ExactDivisorCovers(t, d);
      }
    } else {
      SecondFallsShort(d);
      assert ValidTimespec(Timespec(1, 0)) && !CoversRequest(Timespec(1, 0), d);
    }
  }

  lemma ExactDivisorCovers(t: Timespec, d: nat)
    requires ValidTimespec(t) && 0 < d && PIT_CLOCK % d == 0
    ensures CoversRequest(t, d)
  {
    var f, n, r := PIT_CLOCK / d, Ticks(t, PIT_CLOCK / d), t.sec * NSEC + t.nsec;
    TicksLeast(t, f, n);
    assert f * d == PIT_CLOCK;
    ScaledUp(r, f, n, d);
  }

  lemma ScaledUp(r: int, f: int, n: int, d: nat)
    requires n * NSEC >= r * f && f * d == PIT_CLOCK
    ensures n * d * NSEC >= r * PIT_CLOCK
  {
    MulLe(r * f, n * NSEC, d);
    assert r * f * d == r * (f * d);
    assert n * NSEC * d == n * d * NSEC;
  }

  lemma SecondFallsShort(d: nat)
    requires 0 < d && PIT_CLOCK % d != 0
    ensures !CoversRequest(Timespec(1, 0), d)
  {
    var f := PIT_CLOCK / d;
    assert Ticks(Timespec(1, 0), f) == f;
    assert f * d < PIT_CLOCK;
    assert f * d * NSEC < NSEC * PIT_CLOCK;
  }

  /** The kernel asks for 100 Hz and is told 99: one second is 99 ticks, 11 914 clock periods short. */
  lemma KernelTimerFallsShort()
    ensures PitDivisor(DEFAULT_HZ) == 11932 && PitFrequency(DEFAULT_HZ) == 99
    ensures Ticks(Timespec(1, 0), 99) == 99 && 99 * 11932 + 11914 == PIT_CLOCK
    ensures !CoversRequest(Timespec(1, 0), 11932)
  {
    SecondFallsShort(11932);
  }

  /** Ticks to go after a chain of interrupted sleeps, each resumed on the reported remainder. */
  function Chain(left: nat, slept: seq<nat>, freq: nat): nat
    requires freq > 0
    decreases |slept|
  {
    if slept == [] then left else
    var l := Chain(left, slept[..|slept| - 1], freq);
    var rest := if slept[|slept| - 1] <= l then l - slept[|slept| - 1] else 0;
    RemainderValid(rest, freq);
    Ticks(Remainder(rest, freq), freq)
  }

  function Total(slept: seq<nat>): nat
    decreases |slept|
  {
    if slept == [] then 0 else Total(slept[..|slept| - 1]) + slept[|slept| - 1]
  }

  /** A chain of interrupted sleeps neither loses nor gains a tick. */
  lemma {:induction false} ChainConserves(left: nat, slept: seq<nat>, freq: nat)
    requires freq > 0 && Lossless(freq) && Total(slept) <= left
    ensures Chain(left, slept, freq) == left - Total(slept)
    decreases |slept|
  {
    if slept != [] {
      ChainConserves(left, slept[..|slept| - 1], freq);
      LosslessIsExact(freq);
    }
  }

  // ---------------------------------------------------------------- the call

  /** One turn of the wait loop: the tick count at its top, whether an actionable signal is
      pending, and the tick count when the remainder is computed. */
  datatype Wake = Wake(now: nat, signal: bool, later: nat)

  datatype Outcome =
    | Invalid                              // -EINVAL
    | Done                                 // 0
    | Interrupted(rem: Timespec)           // -EINTR
    | Asleep                               // still waiting when the record ends

  /** The loop neither ends nor is interrupted in this turn. */
  predicate KeepsWaiting(w: Wake, deadline: nat, hasThread: bool) {
    w.now < deadline && !(hasThread && w.signal)
  }

  function FreqOr100(freq: Hertz): Hertz {
    if freq == 0 then DEFAULT_HZ else freq
  }

  /** The wait loop: what it observed, turn by turn, until it ended. */
  ghost predicate Waited(wakes: seq<Wake>, turns: nat, deadline: nat, hasThread: bool, freq: nat, r: Outcome)
    requires freq > 0
  {
    && turns <= |wakes| && !r.Invalid?
    && (forall i :: 0 <= i < turns ==> KeepsWaiting(wakes[i], deadline, hasThread))
    && (r.Asleep? <==> turns == |wakes|)
    && (r.Done? ==> wakes[turns].now >= deadline)
    && (r.Interrupted? ==>
          && wakes[turns].now < deadline && wakes[turns].signal && hasThread
          && r.rem == Remainder(if wakes[turns].later < deadline then deadline - wakes[turns].later else 0, freq))
  }

  method Wait(wakes: seq<Wake>, deadline: nat, hasThread: bool, freq: nat) returns (r: Outcome, turns: nat)
    requires freq > 0
    ensures Waited(wakes, turns, deadline, hasThread, freq, r)
  {
    turns := 0;
    while turns < |wakes|
      invariant turns <= |wakes|
      invariant forall i :: 0 <= i < turns ==> KeepsWaiting(wakes[i], deadline, hasThread)
    {
      if wakes[turns].now >= deadline {
        return Done, turns;
      }
      if hasThread && wakes[turns].signal {
        var left := if wakes[turns].later < deadline then deadline - wakes[turns].later else 0;
        return Interrupted(Timespec(left / freq, left % freq * (NSEC / freq))), turns;
      }
      turns := turns + 1;
    }
    return Asleep, turns;
  }

  /** The outcome is decided by the first turn at or past the deadline, or before it with a signal, if there is one. */
  lemma FirstTurnDecides(wakes: seq<Wake>, turns: nat, deadline: nat, hasThread: bool, freq: nat, r: Outcome, i: nat)
    requires freq > 0 && Waited(wakes, turns, deadline, hasThread, freq, r) && i < |wakes|
    requires forall j :: 0 <= j < i ==> wakes[j].now < deadline && !(hasThread && wakes[j].signal)
    ensures wakes[i].now >= deadline ==> turns == i && r.Done?
    ensures wakes[i].now < deadline && hasThread && wakes[i].signal ==> turns == i && r.Interrupted?
  {
    assert i < turns ==> KeepsWaiting(wakes[i], deadline, hasThread);
  }

  /** kernel_nanosleep.  `req` is absent for a null pointer; `wakes` records what the loop observes. */
  method Sleep(req: Option<Timespec>, timerHz: Hertz, start: nat, hasThread: bool, wakes: seq<Wake>)
    returns (r: Outcome, turns: nat)
    requires start < TWO64
    ensures r.Invalid? <==> req.None? || !ValidTimespec(req.value)
    ensures !r.Invalid? ==>
              var ticks := ArmedTicks(req.value, FreqOr100(timerHz));
              if ticks == 0 then r.Done? && turns == 0
              else Waited(wakes, turns, (start + ticks) % TWO64, hasThread, FreqOr100(timerHz), r)
  {
    if req.None? || req.value.sec < 0 || req.value.nsec < 0 || req.value.nsec >= NSEC {
      return Invalid, 0;
    }
    var freq := timerHz;
    if freq == 0 {
      freq := DEFAULT_HZ;
    }
    var totalTicks := ArmedTicks(req.value, freq);
    if totalTicks == 0 {
      return Done, 0;
    }
    r, turns := Wait(wakes, (start + totalTicks) % TWO64, hasThread, freq);
  }

  /**
   A completed wait has lasted at least the time asked for, counted in ticks of the reported
   frequency, if and only if its deadline fits 64 bits.
   */
  lemma SleepsLongEnough(t: Timespec, freq: Hertz, start: nat, wakes: seq<Wake>, turns: nat, hasThread: bool)
    requires ValidTimespec(t) && freq > 0 && ArmedTicks(t, freq) > 0
    requires Waited(wakes, turns, (start + ArmedTicks(t, freq)) % TWO64, hasThread, freq, Done)
    requires wakes[turns].now < TWO64
    ensures (wakes[turns].now - start) * NSEC >= Request(t, freq) <==> start + Ticks(t, freq) < TWO64
  {
    ArmedIsLeast(t, freq);
    TicksLeast(t, freq, wakes[turns].now - start);
    if start + Ticks(t, freq) < TWO64 {
      DivModUnique(start + Ticks(t, freq), TWO64, 0, start + Ticks(t, freq));
    }
  }

  const INT64_MAX: int := 0x7FFF_FFFF_FFFF_FFFF

  /** At 100 Hz the longest request arms a deadline 100 ticks in the past and returns at once. */
  lemma LongestSleepReturnsAtOnce(start: nat, hasThread: bool)
    requires 100 <= start < TWO64
    ensures var t, wake := Timespec(INT64_MAX, 0), Wake(start, false, start);
            && ValidTimespec(t) && ArmedTicks(t, 100) == TWO64 - 100 < Ticks(t, 100)
            && Waited([wake], 0, (start + ArmedTicks(t, 100)) % TWO64, hasThread, 100, Done)
            && (wake.now - start) * NSEC < Request(t, 100)
  {
    var t := Timespec(INT64_MAX, 0);
    TotalWraps(t, 100);
    assert Ticks(t, 100) == INT64_MAX * 100;
    DivModUnique(INT64_MAX * 100, TWO64, 49, TWO64 - 100);
    DivModUnique(start + (TWO64 - 100), TWO64, 1, start - 100);
  }

  /** At the 99 Hz the kernel's timer reports, a request of six thousand million years sleeps 83 ticks. */
  lemma WrappedSleepIsShort()
    ensures var t := Timespec(186_330_748_219_288_401, 0);
            t.sec <= INT64_MAX && ValidTimespec(t) && ArmedTicks(t, 99) == 83 && Ticks(t, 99) == TWO64 + 83
  {
    var t := Timespec(186_330_748_219_288_401, 0);
    TotalWraps(t, 99);
    assert Ticks(t, 99) == TWO64 + 83;
    DivModUnique(TWO64 + 83, TWO64, 1, 83);
  }

  /** Interrupted and resumed, a sleep still ends no earlier than asked: the deadline does not move. */
  lemma ResumedDeadline(deadline: nat, now: nat, freq: Hertz)
    requires freq > 0 && Lossless(freq) && now < deadline < TWO64
    ensures ValidTimespec(Remainder(deadline - now, freq))
    ensures (now + ArmedTicks(Remainder(deadline - now, freq), freq)) % TWO64 == deadline
  {
    var left := deadline - now;
    LosslessIsExact(freq);
    assert Ticks(Remainder(left, freq), freq) == left;
    ArmedIsLeast(Remainder(left, freq), freq);
    DivModUnique(deadline, TWO64, 0, deadline);
  }
}
