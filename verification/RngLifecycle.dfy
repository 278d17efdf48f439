/**
 The life of the kernel random generator: module initialisation, interrupt-jitter events,
 availability polls and fill requests, each one atomic event.  What the hardware sources
 and the jitter-pool snapshot yield is arbitrary input; the model follows when they may be
 used, what they do to the generator, and what a caller is served.
 */
module RngLifecycle {
  import opened Arithmetic
  import opened Bits
  import opened Bytes
  import opened ChaCha
  import opened Drbg

  const POOL_BITS := 128
  const RESEED_BYTES := 0x10_0000
  const SAMPLE_LEN := 32
  const DELTA_BITS: nat := 16

  const EFAULT := 14
  const ENOSYS := 38

  /** What one event can draw on: the two hardware sources, the pool snapshot, the self-test size. */
  datatype Sources = Sources(rdseed: Option<seq<Byte>>, rdrand: Option<seq<Byte>>, pool: seq<Byte>, selfTestLen: nat)

  predicate ValidSources(x: Sources) {
    && (x.rdseed.Some? ==> |x.rdseed.value| == SEED_LEN)
    && (x.rdrand.Some? ==> |x.rdrand.value| == SEED_LEN)
    && |x.pool| == SEED_LEN
  }

  datatype Rng = Rng(
    moduleUp: bool, ready: bool, haveRdrand: bool, haveRdseed: bool,
    history: History,       // what has been done to the generator so far; its state is Eval(history)
    sinceReseed: nat,
    jsamples: nat, jbits: nat, lastTsc: nat, lastDelta: nat,
    events: nat,            // history: interrupts with a non-zero delta
    seedings: nat,          // history: initial seedings
    poolSeeds: seq<nat>,    // history: the value of `events` at each seeding from the pool
    served: nat)            // history: bytes handed to callers

  datatype Event =
    | Init(rdrand: bool, rdseed: bool)
    | Jitter(tsc: nat)
    | Poll
    | Fill(nullOut: bool, len: nat)

  predicate ValidEvent(e: Event) {
    match e
    case Jitter(tsc) => tsc < TWO64
    case Fill(_, len) => len < TWO64
    case _ => true
  }

  // ---------------------------------------------------------------- steps

  /** Material from the best hardware source, if one delivers. */
  function HwMaterial(rdseed: bool, rdrand: bool, x: Sources): Option<seq<Byte>> {
    if rdseed && x.rdseed.Some? then x.rdseed
    else if rdrand && x.rdrand.Some? then x.rdrand
    else None
  }

  /** Hardware material if there is any, else the pool snapshot. */
  function Material(rdseed: bool, rdrand: bool, x: Sources): (m: seq<Byte>)
    requires ValidSources(x)
    ensures |m| == SEED_LEN
  {
    var hw := HwMaterial(rdseed, rdrand, x);
    if hw.Some? then hw.value else x.pool
  }

  /** The boot self-test and the printed sample each draw once from the new generator. */
  function Drawn(h: History, selfTestLen: nat): History {
    After(if selfTestLen == 0 then h else After(h, DrawOp(selfTestLen)), DrawOp(SAMPLE_LEN))
  }

  /** Install a seed: hardware if possible, else the pool. */
  function SeedNow(s: Rng, x: Sources): Rng
    requires ValidSources(x)
  {
    s.(history := Drawn(After(s.history, SeedOp(Material(s.haveRdseed, s.haveRdrand, x))), x.selfTestLen),
       ready := true, sinceReseed := 0, seedings := s.seedings + 1,
       poolSeeds := if HwMaterial(s.haveRdseed, s.haveRdrand, x).Some? then s.poolSeeds else s.poolSeeds + [s.events])
  }

  /** The locked retry that jitter events and polls share. */
  function SeedIfDue(s: Rng, x: Sources): Rng
    requires ValidSources(x)
  {
    if s.moduleUp && !s.ready && s.jbits >= POOL_BITS then SeedNow(s, x) else s
  }

  function DoInit(s: Rng, x: Sources, rdrand: bool, rdseed: bool): Rng
    requires ValidSources(x)
  {
    if s.moduleUp then s else
    var t := s.(haveRdrand := rdrand, haveRdseed := rdseed);
    (if HwMaterial(t.haveRdseed, t.haveRdrand, x).Some? || t.jbits >= POOL_BITS then SeedNow(t, x) else t).(moduleUp := true)
  }

  /** How many of the low 16 delta bits changed, at most 4. */
  function Changed(delta: nat, last: nat): (c: nat)
    ensures c <= 4
  {
    var c := PopCount(XorBits(delta, last, DELTA_BITS), DELTA_BITS);
    if c > 4 then 4 else c
  }

  /** The estimate and the sample counter after an interrupt `delta` cycles after the last one. */
  function Observe(s: Rng, tsc: nat, delta: nat): Rng {
    s.(lastTsc := tsc, lastDelta := delta, jsamples := (s.jsamples + 1) % TWO32, events := s.events + 1,
       jbits := if s.jbits < 1024 then s.jbits + Changed(delta, s.lastDelta) else s.jbits)
  }

  function DoJitter(s: Rng, x: Sources, tsc: nat): Rng
    requires ValidSources(x)
  {
    var delta := (tsc - s.lastTsc) % TWO64;
    if s.lastTsc == 0 || delta == 0 then s.(lastTsc := tsc) else SeedIfDue(Observe(s, tsc, delta), x)
  }

  /** Serve `len` bytes and add them to the account. */
  function Spend(s: Rng, len: nat): Rng {
    s.(history := After(s.history, FillOp(len)), served := s.served + len, sinceReseed := (s.sinceReseed + len) % TWO64)
  }

  /** Fold in fresh material. */
  function ReseedNow(s: Rng, x: Sources): Rng
    requires ValidSources(x)
  {
    s.(history := After(s.history, ReseedOp(Material(s.haveRdseed, s.haveRdrand, x))), sinceReseed := 0)
  }

  /** Serve, and reseed when the budget is spent. */
  function Account(s: Rng, x: Sources, len: nat): Rng
    requires ValidSources(x)
  {
    var t := Spend(s, len);
    if t.sinceReseed < RESEED_BYTES then t else ReseedNow(t, x)
  }

  /** rng_try_fill's return code. */
  function FillCode(s: Rng, x: Sources, nullOut: bool, len: nat): int
    requires ValidSources(x)
  {
    if nullOut && len > 0 then -EFAULT else if len == 0 then 0
    else if !SeedIfDue(s, x).ready then -ENOSYS else 0
  }

  function DoFill(s: Rng, x: Sources, nullOut: bool, len: nat): Rng
    requires ValidSources(x)
  {
    if len == 0 || nullOut then s else
    var t := SeedIfDue(s, x);
    if t.ready then Account(t, x, len) else t
  }

  function Step(s: Rng, e: Event, x: Sources): Rng
    requires ValidSources(x)
  {
    match e
    case Init(rdrand, rdseed) => DoInit(s, x, rdrand, rdseed)
    case Jitter(tsc) => DoJitter(s, x, tsc)
    case Poll => SeedIfDue(s, x)
    case Fill(nullOut, len) => DoFill(s, x, nullOut, len)
  }

  // ---------------------------------------------------------------- invariant over every run

  predicate Fresh(s: Rng) {
    && !s.moduleUp && !s.ready && s.sinceReseed == 0 && s.history == Untouched
    && s.jsamples == 0 && s.jbits == 0 && s.events == 0 && s.seedings == 0 && s.poolSeeds == [] && s.served == 0
  }

  predicate Inv(s: Rng) {
    && ValidHistory(s.history)
    && (s.ready ==> s.moduleUp)
    && s.seedings == (if s.ready then 1 else 0)
    && (s.served > 0 ==> s.ready)
    && s.jbits <= 4 * s.events && s.jbits <= 1027
    && s.jsamples == s.events % TWO32
    && s.sinceReseed < RESEED_BYTES
    && forall i :: 0 <= i < |s.poolSeeds| ==> 32 <= s.poolSeeds[i] <= s.events
  }

  /** Initialisation sets the module flag last; until then a seeded generator is not yet up. */
  lemma SeedInv(s: Rng, x: Sources)
    requires ValidSources(x) && Inv(s) && !s.ready
    requires HwMaterial(s.haveRdseed, s.haveRdrand, x).Some? || s.jbits >= POOL_BITS
    ensures Inv(SeedNow(s, x).(moduleUp := true))
  {
    assert ValidHistory(After(s.history, SeedOp(Material(s.haveRdseed, s.haveRdrand, x))));
  }

  lemma SeedIfDueInv(s: Rng, x: Sources)
    requires ValidSources(x) && Inv(s)
    ensures Inv(SeedIfDue(s, x))
  {
    if s.moduleUp && !s.ready && s.jbits >= POOL_BITS {
      SeedInv(s, x);
      assert SeedNow(s, x) == SeedNow(s, x).(moduleUp := true);
    }
  }

  lemma InitInv(s: Rng, x: Sources, rdrand: bool, rdseed: bool)
    requires ValidSources(x) && Inv(s)
    ensures Inv(DoInit(s, x, rdrand, rdseed))
  {
    var t := s.(haveRdrand := rdrand, haveRdseed := rdseed);
    if !s.moduleUp && (HwMaterial(t.haveRdseed, t.haveRdrand, x).Some? || t.jbits >= POOL_BITS) {
      SeedInv(t, x);
    }
  }

  lemma ObserveInv(s: Rng, tsc: nat, delta: nat)
    requires Inv(s)
    ensures Inv(Observe(s, tsc, delta))
  {
    ModAdd(s.events, 1, TWO32);
  }

  lemma JitterInv(s: Rng, x: Sources, tsc: nat)
    requires ValidSources(x) && Inv(s)
    ensures Inv(DoJitter(s, x, tsc))
  {
    var delta := (tsc - s.lastTsc) % TWO64;
    if s.lastTsc == 0 || delta == 0 {
      assert DoJitter(s, x, tsc) == s.(lastTsc := tsc);
    } else {
      ObserveInv(s, tsc, delta);
      SeedIfDueInv(Observe(s, tsc, delta), x);
      assert DoJitter(s, x, tsc) == SeedIfDue(Observe(s, tsc, delta), x);
    }
  }

  lemma AccountInv(s: Rng, x: Sources, len: nat)
    requires ValidSources(x) && Inv(s) && s.ready
    ensures Inv(Account(s, x, len))
  {
  }

  lemma FillInv(s: Rng, x: Sources, nullOut: bool, len: nat)
    requires ValidSources(x) && Inv(s)
    ensures Inv(DoFill(s, x, nullOut, len))
  {
    SeedIfDueInv(s, x);
    var t := SeedIfDue(s, x);
    if len == 0 || nullOut {
      assert DoFill(s, x, nullOut, len) == s;
    } else if t.ready {
      AccountInv(t, x, len);
      assert DoFill(s, x, nullOut, len) == Account(t, x, len);
    } else {
      assert DoFill(s, x, nullOut, len) == t;
    }
  }

  lemma StepInv(s: Rng, e: Event, x: Sources)
    requires ValidSources(x) && ValidEvent(e) && Inv(s)
    ensures Inv(Step(s, e, x))
  {
    match e
    case Init(rdrand, rdseed) => InitInv(s, x, rdrand, rdseed);
    case Jitter(tsc) => JitterInv(s, x, tsc);
    case Poll => SeedIfDueInv(s, x);
    case Fill(nullOut, len) => FillInv(s, x, nullOut, len);
  }

  predicate ValidRun(run: seq<(Event, Sources)>) {
    forall i :: 0 <= i < |run| ==> ValidEvent(run[i].0) && ValidSources(run[i].1)
  }

  ghost function Run(s: Rng, run: seq<(Event, Sources)>): Rng
    requires ValidRun(run)
    decreases |run|
  {
    if run == [] then s else
    Step(Run(s, run[..|run| - 1]), run[|run| - 1].0, run[|run| - 1].1)
  }

  lemma {:induction false} RunInv(s: Rng, run: seq<(Event, Sources)>)
    requires Fresh(s) && ValidRun(run)
    ensures Inv(Run(s, run))
    decreases |run|
  {
    if run != [] {
      RunInv(s, run[..|run| - 1]);
      StepInv(Run(s, run[..|run| - 1]), run[|run| - 1].0, run[|run| - 1].1);
    }
  }

  /**
   Over every run from boot: nothing is served before the generator is seeded, it is seeded
   at most once, a seed from the pool needed at least 32 interrupts with a non-zero delta, the
   entropy estimate stays at most 1027, and less than 1 MiB is ever owed to a reseed.
   */
  lemma {:induction false} RunSafe(s: Rng, run: seq<(Event, Sources)>)
    requires Fresh(s) && ValidRun(run)
    ensures var r := Run(s, run);
            && (r.served > 0 ==> r.ready && r.seedings == 1)
            && r.seedings <= 1
            && (forall i :: 0 <= i < |r.poolSeeds| ==> r.poolSeeds[i] >= 32)
            && r.jbits <= 4 * r.events && r.jbits <= 1027
            && r.sinceReseed < RESEED_BYTES
  {
    RunInv(s, run);
  }

  /**
   -ENOSYS (38) is returned exactly for a non-empty request that meets an unseeded generator with
   less than 128 estimated bits or before initialisation, -EFAULT (14) exactly for a null pointer;
   a refused request serves nothing.
   */
  lemma RefusedUnlessReady(s: Rng, x: Sources, nullOut: bool, len: nat)
    requires ValidSources(x) && Inv(s)
    ensures FillCode(s, x, nullOut, len) == -38 <==>
              len > 0 && !nullOut && !s.ready && !(s.moduleUp && s.jbits >= 128)
    ensures FillCode(s, x, nullOut, len) == -14 <==> len > 0 && nullOut
    ensures FillCode(s, x, nullOut, len) in {0, -14, -38}
    ensures FillCode(s, x, nullOut, len) != 0 ==> DoFill(s, x, nullOut, len).served == s.served
    ensures FillCode(s, x, nullOut, len) == 0 ==> DoFill(s, x, nullOut, len).served == s.served + len
  {
  }

  /** One call on a seeded generator leaves it seeded and only adds to its history. */
  lemma StaysReady(s: Rng, e: Event, x: Sources)
    requires ValidSources(x) && ValidEvent(e) && Inv(s) && s.ready
    ensures Step(s, e, x).ready && Continues(s.history, Step(s, e, x).history)
    ensures s.served <= Step(s, e, x).served
  {
  }

  lemma {:induction false} ContinuesBoth(a: History, b: History, c: History)
    requires Continues(a, b) && Continues(b, c)
    ensures Continues(a, c)
    decreases c
  {
    if b != c {
      ContinuesBoth(a, b, c.past);
    }
  }

  /** Once seeded, the generator stays seeded over the rest of every run, and its state includes that seed. */
  lemma {:induction false} ReadyForever(s: Rng, run: seq<(Event, Sources)>, n: nat)
    requires Fresh(s) && ValidRun(run) && n <= |run| && Run(s, run[..n]).ready
    ensures Run(s, run).ready && Continues(Run(s, run[..n]).history, Run(s, run).history)
    ensures Run(s, run[..n]).served <= Run(s, run).served
    decreases |run|
  {
    if n == |run| {
      assert run[..n] == run;
    } else {
      var front := run[..|run| - 1];
      assert front[..n] == run[..n];
      ReadyForever(s, front, n);
      RunInv(s, front);
      StaysReady(Run(s, front), run[|run| - 1].0, run[|run| - 1].1);
      ContinuesBoth(Run(s, run[..n]).history, Run(s, front).history, Run(s, run).history);
    }
  }

  // ---------------------------------------------------------------- the module's globals

  /** `bytes` is what generator state `c` serves. */
  ghost predicate Served(bytes: seq<Byte>, c: Core)
    requires ValidCore(c)
  {
    forall k :: 0 <= k < |bytes| ==> bytes[k] == Keystream(c, k)
  }

  class Module {
    var drbg: Core
    var moduleUp: bool
    var ready: bool
    var haveRdrand: bool
    var haveRdseed: bool
    var sinceReseed: nat
    var jsamples: nat
    var jbits: nat
    var lastTsc: nat
    var lastDelta: nat
    ghost var history: History
    ghost var events: nat
    ghost var seedings: nat
    ghost var poolSeeds: seq<nat>
    ghost var served: nat

    ghost predicate Valid()
      reads this
    {
      ValidHistory(history) && drbg == Eval(history)
    }

    ghost function State(): Rng
      reads this
    {
      Rng(moduleUp, ready, haveRdrand, haveRdseed, history, sinceReseed,
          jsamples, jbits, lastTsc, lastDelta, events, seedings, poolSeeds, served)
    }

    constructor ()
      ensures Valid() && Fresh(State())
    {
      drbg := BLANK;
      history := Untouched;
      moduleUp, ready, haveRdrand, haveRdseed := false, false, false, false;
      sinceReseed, jsamples, jbits, lastTsc, lastDelta := 0, 0, 0, 0, 0;
      events, seedings, poolSeeds, served := 0, 0, [], 0;
    }

    // The three operations on the generator, each recorded in its history.
    method GenSeed(m: seq<Byte>)
      requires Valid() && |m| == SEED_LEN
      modifies this`drbg, this`history
      ensures Valid() && history == After(old(history), SeedOp(m))
    {
      drbg := SeedCore(m);
      history := After(history, SeedOp(m));
    }

    method GenReseed(m: seq<Byte>)
      requires Valid() && |m| == SEED_LEN
      modifies this`drbg, this`history
      ensures Valid() && history == After(old(history), ReseedOp(m))
    {
      drbg := ReseedCore(drbg, m);
      history := After(history, ReseedOp(m));
    }

    method GenFill(out: array<Byte>, len: nat, ghost op: GenOp)
      requires Valid() && len <= out.Length && (op == FillOp(len) || op == DrawOp(len))
      modifies this`drbg, this`history, out
      ensures Valid() && history == After(old(history), op)
      ensures Served(out[..len], old(drbg))
    {
      drbg := FillCore(drbg, out, len);
      history := After(history, op);
    }

    /** rng_self_test and rng_print_sample: what they draw from the generator. */
    method Exercise(selfTestLen: nat)
      requires Valid()
      modifies this`drbg, this`history
      ensures Valid() && history == Drawn(old(history), selfTestLen)
    {
      if selfTestLen != 0 {
        var buf := new Byte[selfTestLen](_ => 0);
        GenFill(buf, selfTestLen, DrawOp(selfTestLen));
      }
      var sample := new Byte[SAMPLE_LEN](_ => 0);
      GenFill(sample, SAMPLE_LEN, DrawOp(SAMPLE_LEN));
    }

    /** The order in which the sources are tried: RDSEED, RDRAND, the pool. */
    method Gather(x: Sources) returns (m: seq<Byte>, fromHw: bool)
      requires ValidSources(x)
      ensures m == Material(haveRdseed, haveRdrand, x) && |m| == SEED_LEN
      ensures fromHw == HwMaterial(haveRdseed, haveRdrand, x).Some?
    {
      if haveRdseed && x.rdseed.Some? {
        return x.rdseed.value, true;
      }
      if haveRdrand && x.rdrand.Some? {
        return x.rdrand.value, true;
      }
      return x.pool, false;
    }

    /** try_seed_from_hw_locked, then seed_from_pool_locked if it failed, then the self-test. */
    method SeedLocked(x: Sources)
      requires Valid() && ValidSources(x)
      modifies this
      ensures Valid() && State() == SeedNow(old(State()), x)
    {
      var m, fromHw := Gather(x);
      sinceReseed := 0;
      ready := true;
      seedings := seedings + 1;
      poolSeeds := if fromHw then poolSeeds else poolSeeds + [events];
      assert State() == SeedNow(old(State()), x).(history := history);
      Install(m, x.selfTestLen);
    }

    method Install(m: seq<Byte>, selfTestLen: nat)
      requires Valid() && |m| == SEED_LEN
      modifies this`drbg, this`history
      ensures Valid() && history == Drawn(After(old(history), SeedOp(m)), selfTestLen)
    {
      GenSeed(m);
      Exercise(selfTestLen);
    }

    /** rng_init; the arguments are what CPUID reports. */
    method Initialise(x: Sources, rdrand: bool, rdseed: bool)
      requires Valid() && ValidSources(x)
      modifies this
      ensures Valid() && State() == Step(old(State()), Init(rdrand, rdseed), x)
    {
      if moduleUp {
        return;
      }
      haveRdrand, haveRdseed := rdrand, rdseed;
      if (haveRdseed && x.rdseed.Some?) || (haveRdrand && x.rdrand.Some?) {
        SeedLocked(x);
      } else if jbits >= POOL_BITS {
        SeedLocked(x);
      }
      moduleUp := true;
    }

    /** rng_available. */
    method Available(x: Sources) returns (ok: bool)
      requires Valid() && ValidSources(x)
      modifies this
      ensures Valid() && State() == Step(old(State()), Poll, x) && ok == ready
    {
      if ready {
        return true;
      }
      if !moduleUp {
        return false;
      }
      if !ready && jbits >= POOL_BITS {
        SeedLocked(x);
      }
      return ready;
    }

    /** rng_jitter_event. */
    method JitterEvent(x: Sources, tsc: nat)
      requires Valid() && ValidSources(x)
      modifies this
      ensures Valid() && State() == Step(old(State()), Jitter(tsc), x)
    {
      var prev := lastTsc;
      lastTsc := tsc;
      if prev == 0 {
        return;
      }
      var delta := (tsc - prev) % TWO64;
      if delta == 0 {
        return;
      }
      Sample(delta);
      assert State() == Observe(old(State()), tsc, delta);
      SeedIfCrossed(x);
    }

    /** The estimate of one sample. */
    static method Estimate(delta: nat, last: nat) returns (changed: nat)
      ensures changed == Changed(delta, last)
    {
      changed := PopCount(XorBits(delta, last, DELTA_BITS), DELTA_BITS);
      if changed > 4 {
        changed := 4;
      }
    }

    /** The sample counter and estimate updates of rng_jitter_event. */
    method Sample(delta: nat)
      modifies this`jsamples, this`jbits, this`lastDelta, this`events
      ensures State() == Observe(old(State()), lastTsc, delta)
    {
      jsamples := (jsamples + 1) % TWO32;
      events := events + 1;
      var changed := Estimate(delta, lastDelta);
      lastDelta := delta;
      if jbits < 1024 {
        jbits := jbits + changed;
      }
    }

    /** The opportunistic completion at the end of rng_jitter_event. */
    method SeedIfCrossed(x: Sources)
      requires Valid() && ValidSources(x)
      modifies this
      ensures Valid() && State() == SeedIfDue(old(State()), x)
    {
      if moduleUp && !ready && jbits >= POOL_BITS {
        SeedLocked(x);
      }
    }

    /** rng_try_fill: `out` is absent for a null pointer. */
    method TryFill(x: Sources, out: Option<array<Byte>>, len: nat) returns (rc: int)
      requires Valid() && ValidSources(x) && len < TWO64
      requires out.Some? ==> len <= out.value.Length
      modifies this, if out.Some? then {out.value} else {}
      ensures Valid() && State() == Step(old(State()), Fill(out.None?, len), x)
      ensures rc == FillCode(old(State()), x, out.None?, len)
      ensures rc == 0 && len > 0 ==>
                var before := SeedIfDue(old(State()), x).history;
                ValidHistory(before) && forall k :: 0 <= k < len ==> out.value[k] == Keystream(Eval(before), k)
      ensures rc != 0 && out.Some? ==> out.value[..] == old(out.value[..])
    {
      if out.None? && len > 0 {
        return -EFAULT;
      }
      if len == 0 {
        return 0;
      }
      var ok := Available(x);
      if !ok {
        return -ENOSYS;
      }
      FillLocked(x, out.value, len);
      return 0;
    }

    /** The locked part of rng_try_fill. */
    method FillLocked(x: Sources, out: array<Byte>, len: nat)
      requires Valid() && ValidSources(x) && len <= out.Length
      modifies this, out
      ensures Valid() && State() == Account(old(State()), x, len)
      ensures Served(out[..len], old(drbg))
    {
      Charge(out, len);
      if sinceReseed >= RESEED_BYTES {
        ReseedLocked(x);
      }
    }

    /** Serve the bytes and add them to the account. */
    method Charge(out: array<Byte>, len: nat)
      requires Valid() && len <= out.Length
      modifies this`drbg, this`history, this`served, this`sinceReseed, out
      ensures Valid() && State() == Spend(old(State()), len)
      ensures Served(out[..len], old(drbg))
    {
      GenFill(out, len, FillOp(len));
      Count(len);
    }

    method Count(len: nat)
      modifies this`served, this`sinceReseed
      ensures State() == old(State()).(served := old(served) + len, sinceReseed := (old(sinceReseed) + len) % TWO64)
    {
      served := served + len;
      sinceReseed := (sinceReseed + len) % TWO64;
    }

    /** The periodic reseed. */
    method ReseedLocked(x: Sources)
      requires Valid() && ValidSources(x)
      modifies this`drbg, this`history, this`sinceReseed
      ensures Valid() && State() == ReseedNow(old(State()), x)
    {
      var m, fromHw := Gather(x);
      GenReseed(m);
      sinceReseed := 0;
    }
  }
}
