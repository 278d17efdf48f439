/**
 What the random generator gets done: when a call seeds it and from which source, that reseeds
 come neither late nor early over whole runs, and how many interrupts are enough without a
 hardware source.
 */
module RngProgress {
  import opened Arithmetic
  import opened Bits
  import opened Bytes
  import opened Drbg
  import opened RngLifecycle

  // ---------------------------------------------------------------- where material comes from

  /** `m` is RDSEED's if the CPU has it and it delivers, else RDRAND's, else the pool's. */
  predicate BestSource(m: seq<Byte>, rdseed: bool, rdrand: bool, x: Sources) {
    && (rdseed && x.rdseed.Some? ==> m == x.rdseed.value)
    && (!(rdseed && x.rdseed.Some?) && rdrand && x.rdrand.Some? ==> m == x.rdrand.value)
    && (!(rdseed && x.rdseed.Some?) && !(rdrand && x.rdrand.Some?) ==> m == x.pool)
  }

  lemma MaterialIsBest(rdseed: bool, rdrand: bool, x: Sources)
    requires ValidSources(x)
    ensures BestSource(Material(rdseed, rdrand, x), rdseed, rdrand, x)
  {
  }

  /** A new seed, and what the boot self-test and the printed sample of 32 bytes draw from it. */
  predicate SeededBy(h: History, h': History, m: seq<Byte>, selfTestLen: nat) {
    h' == if selfTestLen == 0 then After(After(h, SeedOp(m)), DrawOp(32))
          else After(After(After(h, SeedOp(m)), DrawOp(selfTestLen)), DrawOp(32))
  }

  /**
   rng_init on a CPU whose RDSEED or RDRAND delivers seeds the generator at once from the better
   of the two; without either it seeds exactly when 128 bits have been estimated.
   */
  lemma InitSeeds(s: Rng, x: Sources, rdrand: bool, rdseed: bool) returns (m: seq<Byte>)
    requires ValidSources(x) && Inv(s) && !s.moduleUp
    ensures var r := Step(s, Init(rdrand, rdseed), x);
            && r.moduleUp
            && (r.ready <==> (rdseed && x.rdseed.Some?) || (rdrand && x.rdrand.Some?) || s.jbits >= 128)
            && (r.ready ==> SeededBy(s.history, r.history, m, x.selfTestLen) && BestSource(m, rdseed, rdrand, x))
            && (!r.ready ==> r.history == s.history)
  {
    m := Material(rdseed, rdrand, x);
    MaterialIsBest(rdseed, rdrand, x);
  }

  /** After initialisation every poll and every request seeds exactly when 128 bits have been estimated. */
  lemma DueSeeds(s: Rng, x: Sources) returns (m: seq<Byte>)
    requires ValidSources(x) && Inv(s) && !s.ready
    ensures var r := Step(s, Poll, x);
            && (r.ready <==> s.moduleUp && s.jbits >= 128)
            && (r.ready ==> SeededBy(s.history, r.history, m, x.selfTestLen) && BestSource(m, s.haveRdseed, s.haveRdrand, x))
            && (!r.ready ==> r == s)
  {
    m := Material(s.haveRdseed, s.haveRdrand, x);
    MaterialIsBest(s.haveRdseed, s.haveRdrand, x);
  }

  /** A served request is followed by a reseed from the best source exactly when the budget of 1 MiB is spent. */
  lemma FillReseeds(s: Rng, x: Sources, len: nat) returns (m: seq<Byte>)
    requires ValidSources(x) && Inv(s) && s.ready && 0 < len < TWO64
    ensures BestSource(m, s.haveRdseed, s.haveRdrand, x)
    ensures Step(s, Fill(false, len), x).history ==
              if (s.sinceReseed + len) % TWO64 >= 0x10_0000 then After(After(s.history, FillOp(len)), ReseedOp(m))
              else After(s.history, FillOp(len))
  {
    m := Material(s.haveRdseed, s.haveRdrand, x);
    MaterialIsBest(s.haveRdseed, s.haveRdrand, x);
  }

  // ---------------------------------------------------------------- the reseed budget over every run

  /** Bytes served to callers since the last seed or reseed in a history. */
  function Owed(h: History): nat {
    match h
    case Untouched => 0
    case After(past, FillOp(len)) => Owed(past) + len
    case After(past, DrawOp(_)) => Owed(past)
    case After(_, _) => 0
  }

  function ServedBy(h: History): nat {
    match h
    case Untouched => 0
    case After(past, FillOp(len)) => ServedBy(past) + len
    case After(past, _) => ServedBy(past)
  }

  function Reseeds(h: History): nat {
    match h
    case Untouched => 0
    case After(past, ReseedOp(_)) => Reseeds(past) + 1
    case After(past, _) => Reseeds(past)
  }

  /** What the account says is what the history shows; every reseed was paid for by 1 MiB served. */
  predicate Balanced(s: Rng) {
    && Owed(s.history) == s.sinceReseed && ServedBy(s.history) == s.served
    && s.served >= 0x10_0000 * Reseeds(s.history) + Owed(s.history)
  }

  lemma SeedBalanced(s: Rng, x: Sources)
    requires ValidSources(x) && Balanced(s) && s.served == 0
    ensures Balanced(SeedNow(s, x))
  {
    var h := After(s.history, SeedOp(Material(s.haveRdseed, s.haveRdrand, x)));
    assert Owed(h) == 0 && ServedBy(h) == s.served && Reseeds(h) == Reseeds(s.history);
    DrawnKeeps(h, x.selfTestLen);
  }

  lemma DrawnKeeps(h: History, n: nat)
    ensures Owed(Drawn(h, n)) == Owed(h) && ServedBy(Drawn(h, n)) == ServedBy(h) && Reseeds(Drawn(h, n)) == Reseeds(h)
  {
    assert Drawn(h, n).past == if n == 0 then h else After(h, DrawOp(n));
  }

  lemma DueBalanced(s: Rng, x: Sources)
    requires ValidSources(x) && Inv(s) && Balanced(s)
    ensures Balanced(SeedIfDue(s, x))
  {
    if s.moduleUp && !s.ready && s.jbits >= POOL_BITS {
      SeedBalanced(s, x);
    }
  }

  /** After a served request the account still balances if and only if its sum did not wrap. */
  lemma FillBalanced(s: Rng, x: Sources, len: nat)
    requires ValidSources(x) && Inv(s) && s.ready && Balanced(s) && len < TWO64
    ensures Balanced(Account(s, x, len)) <==> s.sinceReseed + len < TWO64
  {
    var h := After(s.history, FillOp(len));
    assert Owed(h) == Owed(s.history) + len && ServedBy(h) == ServedBy(s.history) + len && Reseeds(h) == Reseeds(s.history);
    var r := After(h, ReseedOp(Material(s.haveRdseed, s.haveRdrand, x)));
    assert Owed(r) == 0 && ServedBy(r) == ServedBy(h) && Reseeds(r) == Reseeds(h) + 1;
    if s.sinceReseed + len < TWO64 {
      DivModUnique(s.sinceReseed + len, TWO64, 0, s.sinceReseed + len);
    } else {
      DivModUnique(s.sinceReseed + len, TWO64, 1, s.sinceReseed + len - TWO64);
    }
  }

  /** No request comes within 1 MiB of 2^64 bytes. */
  predicate Modest(e: Event) {
    e.Fill? ==> e.len < TWO64 - 0x10_0000
  }

  lemma StepBalanced(s: Rng, e: Event, x: Sources)
    requires ValidSources(x) && ValidEvent(e) && Modest(e) && Inv(s) && Balanced(s)
    ensures Balanced(Step(s, e, x))
  {
    match e
    case Init(rdrand, rdseed) =>
      var t := s.(haveRdrand := rdrand, haveRdseed := rdseed);
      if !s.moduleUp {
        SeedBalanced(t, x);
      }
    case Jitter(tsc) =>
      var delta := (tsc - s.lastTsc) % TWO64;
      ObserveInv(s, tsc, delta);
      DueBalanced(Observe(s, tsc, delta), x);
    case Poll => DueBalanced(s, x);
    case Fill(nullOut, len) =>
      DueBalanced(s, x);
      SeedIfDueInv(s, x);
      if SeedIfDue(s, x).ready {
        FillBalanced(SeedIfDue(s, x), x, len);
      }
  }

  /**
   Over every run of modest requests from boot: less than 1 MiB has been served since the last
   seed or reseed, and every reseed was preceded by 1 MiB of its own, so reseeds come neither
   late nor early.
   */
  lemma {:induction false} ReseedsOnTime(s: Rng, run: seq<(Event, Sources)>)
    requires Fresh(s) && ValidRun(run) && forall i :: 0 <= i < |run| ==> Modest(run[i].0)
    ensures var r := Run(s, run);
            && Balanced(r) && Owed(r.history) < 0x10_0000
            && 0x10_0000 * Reseeds(r.history) + Owed(r.history) <= r.served == ServedBy(r.history)
    decreases |run|
  {
    RunInv(s, run);
    if run != [] {
      var front, last := run[..|run| - 1], run[|run| - 1];
      assert forall i :: 0 <= i < |front| ==> front[i] == run[i];
      assert Modest(last.0) && ValidEvent(last.0) && ValidSources(last.1);
      RunInv(s, front);
      ReseedsOnTime(s, front);
      StepBalanced(Run(s, front), last.0, last.1);
    }
  }

  // ---------------------------------------------------------------- jitter

  /** The estimate of a sample is the number of low 16 bits that changed, at most 4. */
  lemma ChangedCounts(delta: nat, last: nat)
    ensures Changed(delta, last) == Min(Differing(delta, last, 16), 4)
  {
    XorCountsDiffering(delta, last, DELTA_BITS);
  }

  /**
   The first interrupt and one at the same time as the last only set the time; every other adds
   one sample and, below 1024, the number of changed bits, at most 4, to the estimate.
   */
  lemma JitterCounts(s: Rng, x: Sources, tsc: nat)
    requires ValidSources(x)
    ensures var r, delta := Step(s, Jitter(tsc), x), (tsc - s.lastTsc) % TWO64;
            if s.lastTsc == 0 || delta == 0 then r == s.(lastTsc := tsc) else
            && r.lastTsc == tsc && r.lastDelta == delta && r.events == s.events + 1 && r.jsamples == (s.jsamples + 1) % TWO32
            && r.jbits == s.jbits + if s.jbits < 1024 then Min(Differing(delta, s.lastDelta, 16), 4) else 0
  {
    ChangedCounts((tsc - s.lastTsc) % TWO64, s.lastDelta);
  }

  /** An interrupt that counts: not the first, a delta that is not zero, and four of its low 16 bits changed. */
  predicate Counts(s: Rng, e: Event) {
    && e.Jitter? && s.lastTsc != 0
    && var delta := (e.tsc - s.lastTsc) % TWO64;
       delta != 0 && Differing(delta, s.lastDelta, 16) >= 4
  }

  /** Every event of a run is such an interrupt. */
  ghost predicate AllCount(s: Rng, run: seq<(Event, Sources)>)
    requires ValidRun(run)
    decreases |run|
  {
    run == [] || (AllCount(s, run[..|run| - 1]) && Counts(Run(s, run[..|run| - 1]), run[|run| - 1].0))
  }

  lemma CountsFour(s: Rng, e: Event, x: Sources)
    requires ValidSources(x) && ValidEvent(e) && Inv(s) && s.moduleUp && Counts(s, e)
    ensures var r := Step(s, e, x);
            && r.moduleUp && (s.ready ==> r.ready) && r.jbits == (if s.jbits < 1024 then s.jbits + 4 else s.jbits)
            && (r.jbits >= 128 ==> r.ready)
  {
    ChangedCounts((e.tsc - s.lastTsc) % TWO64, s.lastDelta);
  }

  /**
   Thirty-two interrupts that count are enough: after initialisation they seed the generator,
   whatever the hardware sources do.  RunSafe says that fewer samples are not.
   */
  lemma {:induction false} ThirtyTwoSuffice(s: Rng, run: seq<(Event, Sources)>)
    requires Inv(s) && s.moduleUp && ValidRun(run) && AllCount(s, run)
    ensures Inv(Run(s, run)) && Run(s, run).moduleUp && (s.ready ==> Run(s, run).ready)
    ensures Run(s, run).jbits >= Min(4 * |run|, 1024)
    ensures |run| >= 32 ==> Run(s, run).ready
    decreases |run|
  {
    if run != [] {
      var front, last := run[..|run| - 1], run[|run| - 1];
      ThirtyTwoSuffice(s, front);
      CountsFour(Run(s, front), last.0, last.1);
      StepInv(Run(s, front), last.0, last.1);
    }
  }
}
