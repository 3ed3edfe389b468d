/**
 The population audit: the initial domain fill against legitimate boundary inflow, and the
 correspondence between particle birth instants and birth events.
 */
module PopulationAudit {
  import opened Wrappers
  import opened RunTables
  import opened Counting
  import LifecycleAudit

  datatype PopulationError = InvalidDirection

  datatype Counters = Counters(
    totalParticles: nat,
    initialParticles: nat,
    inflowParticles: nat,
    invalidInitialOrigins: nat,
    invalidInflowOrigins: nat,
    invalidInflowDirection: nat,
    distinctBirthInstants: nat,
    birthEvents: nat,
    invalidMultiplicity: nat,
    orphanBirthEvents: nat,
    stateEventMismatches: nat)

  /** a is strictly after b in the direction of the run. */
  predicate After(dir: Direction, a: Instant, b: Instant) {
    if dir == Forward then a.seconds > b.seconds || (a.seconds == b.seconds && a.nanosecond > b.nanosecond)
    else a.seconds < b.seconds || (a.seconds == b.seconds && a.nanosecond < b.nanosecond)
  }

  /** The two-column comparison is the strict order of the run's clock. */
  lemma AfterIsElapsed(dir: Direction, a: Instant, b: Instant)
    requires InSecond(a) && InSecond(b)
    ensures After(dir, a, b) <==> Elapsed(dir, b, a) > 0
  {
  }

  ghost function Initial(t: Tables, start: Instant): set<Particle> {
    set p | p in t.particles && p.birth == start
  }

  ghost function Inflow(t: Tables, start: Instant): set<Particle> {
    set p | p in t.particles && p.birth != start
  }

  ghost function MisplacedInitial(t: Tables, start: Instant): set<Particle> {
    set p | p in t.particles && p.birth == start && p.origin != DomainInitial
  }

  ghost function MisplacedInflow(t: Tables, start: Instant): set<Particle> {
    set p | p in t.particles && p.birth != start && p.origin != DomainBoundary
  }

  ghost function BackwardInflow(t: Tables, start: Instant, dir: Direction): set<Particle> {
    set p | p in t.particles && p.birth != start && !After(dir, p.birth, start)
  }

  ghost function BirthInstants(t: Tables): set<Instant> {
    set p | p in t.particles :: p.birth
  }

  ghost function BirthEvents(t: Tables): set<Event> {
    set e | e in t.events && e.kind == BirthEvent
  }

  ghost function BirthEventsAt(t: Tables, at: Instant): set<Event> {
    set e | e in BirthEvents(t) && e.at == at
  }

  ghost function UnmatchedInstants(t: Tables): set<Instant> {
    set at | at in BirthInstants(t) && |BirthEventsAt(t, at)| != 1
  }

  ghost function OrphanInstants(t: Tables): set<Instant> {
    set e | e in BirthEvents(t) && e.at !in BirthInstants(t) :: e.at
  }

  ghost function FirstRows(t: Tables, p: Particle): set<State> {
    set s | s in RowsOf(t, p.id) && s.sample == 0
  }

  /** The left joins from particle to its sample 0 and on to that sample's event. */
  ghost predicate BirthRowMismatch(t: Tables, p: Particle) {
    var rows := FirstRows(t, p);
    || rows == {}
    || exists s :: s in rows && (s.at != p.birth || EventMismatch(t, p, s))
  }

  ghost predicate EventMismatch(t: Tables, p: Particle, s: State) {
    || (forall e :: e in t.events ==> e.sequence != s.event)
    || exists e :: e in t.events && e.sequence == s.event && (e.kind != BirthEvent || e.at != p.birth)
  }

  ghost function MismatchedParticles(t: Tables): set<Particle> {
    set p | p in t.particles && BirthRowMismatch(t, p)
  }

  ghost function Count(t: Tables, start: Instant, dir: Direction): Counters {
    Counters(
      totalParticles := |t.particles|,
      initialParticles := |Initial(t, start)|,
      inflowParticles := |Inflow(t, start)|,
      invalidInitialOrigins := |MisplacedInitial(t, start)|,
      invalidInflowOrigins := |MisplacedInflow(t, start)|,
      invalidInflowDirection := |BackwardInflow(t, start, dir)|,
      distinctBirthInstants := |BirthInstants(t)|,
      birthEvents := |BirthEvents(t)|,
      invalidMultiplicity := |UnmatchedInstants(t)|,
      orphanBirthEvents := |OrphanInstants(t)|,
      stateEventMismatches := |MismatchedParticles(t)|)
  }

  predicate Valid(c: Counters, target: int) {
    && c.initialParticles == target
    && c.totalParticles == c.initialParticles + c.inflowParticles
    && c.invalidInitialOrigins == 0
    && c.invalidInflowOrigins == 0
    && c.invalidInflowDirection == 0
    && c.invalidMultiplicity == 0
    && c.orphanBirthEvents == 0
    && c.stateEventMismatches == 0
  }

  ghost function Audit(t: Tables, start: Instant, dir: Direction): Result<Counters, PopulationError> {
    if dir == OtherDirection then Err(InvalidDirection) else Ok(Count(t, start, dir))
  }

  // ------------------------------------------------------------------
  // What a faithful population is
  // ------------------------------------------------------------------

  /** Initial particles exactly at the start; every other one is inflow, born strictly later. */
  ghost predicate Partitioned(t: Tables, start: Instant, dir: Direction) {
    forall p :: p in t.particles ==>
      (p.birth == start && p.origin == DomainInitial) || (After(dir, p.birth, start) && p.origin == DomainBoundary)
  }

  /** e is the one birth event at an instant. */
  ghost predicate SoleBirthEvent(t: Tables, at: Instant, e: Event) {
    && e in t.events && e.kind == BirthEvent && e.at == at
    && forall f :: f in t.events && f.kind == BirthEvent && f.at == at ==> f == e
  }

  /** Birth instants and birth events correspond one to one. */
  ghost predicate BirthsMatchEvents(t: Tables) {
    && (forall p :: p in t.particles ==> exists e :: SoleBirthEvent(t, p.birth, e))
    && (forall e :: e in t.events && e.kind == BirthEvent ==> exists p :: p in t.particles && p.birth == e.at)
  }

  /** Sample 0 is at the particle's birth and points at the birth event of that instant. */
  ghost predicate BornAtItsEvent(t: Tables, p: Particle) {
    exists s, e :: s in RowsOf(t, p.id) && s.sample == 0 && s.at == p.birth
      && e in t.events && e.kind == BirthEvent && e.sequence == s.event && e.at == p.birth
  }

  ghost predicate FaithfulPopulation(t: Tables, start: Instant, dir: Direction, target: int) {
    && |Initial(t, start)| == target
    && Partitioned(t, start, dir)
    && BirthsMatchEvents(t)
    && forall p :: p in t.particles ==> BornAtItsEvent(t, p)
  }

  // ------------------------------------------------------------------
  // The flag is exact
  // ------------------------------------------------------------------

  lemma PartitionCounters(t: Tables, start: Instant, dir: Direction)
    ensures MisplacedInitial(t, start) == {} && MisplacedInflow(t, start) == {} && BackwardInflow(t, start, dir) == {}
            <==> Partitioned(t, start, dir)
    ensures |t.particles| == |Initial(t, start)| + |Inflow(t, start)|
  {
    forall p | p in t.particles
      ensures p in MisplacedInitial(t, start) || p in MisplacedInflow(t, start) || p in BackwardInflow(t, start, dir)
              <==> !((p.birth == start && p.origin == DomainInitial)
                     || (After(dir, p.birth, start) && p.origin == DomainBoundary))
    {}
    assert t.particles == Initial(t, start) + Inflow(t, start);
  }

  lemma MultiplicityExact(t: Tables, at: Instant)
    ensures |BirthEventsAt(t, at)| == 1 <==> exists e :: SoleBirthEvent(t, at, e)
  {
    SingletonSize(BirthEventsAt(t, at));
    if e :| SoleBirthEvent(t, at, e) { assert e in BirthEventsAt(t, at); }
    if |BirthEventsAt(t, at)| == 1 {
      var e :| e in BirthEventsAt(t, at) && forall f :: f in BirthEventsAt(t, at) ==> f == e;
      assert forall f :: f in BirthEvents(t) && f.at == at ==> f in BirthEventsAt(t, at);
      assert SoleBirthEvent(t, at, e);
    }
  }

  lemma EventCounters(t: Tables)
    ensures UnmatchedInstants(t) == {} && OrphanInstants(t) == {} <==> BirthsMatchEvents(t)
  {
    forall p | p in t.particles
      ensures p.birth in UnmatchedInstants(t) <==> !exists e :: SoleBirthEvent(t, p.birth, e)
    {
      MultiplicityExact(t, p.birth);
      assert p.birth in BirthInstants(t);
    }
    forall e | e in BirthEvents(t)
      ensures e.at in OrphanInstants(t) <==> !exists p :: p in t.particles && p.birth == e.at
    {}
    if BirthsMatchEvents(t) {
      assert forall at :: at in UnmatchedInstants(t) ==> exists p :: p in t.particles && p.birth == at;
      assert UnmatchedInstants(t) == {} && OrphanInstants(t) == {};
    }
  }

  lemma BirthRowExact(t: Tables, p: Particle)
    requires Schema(t) && UniqueSamples(t)
    ensures !BirthRowMismatch(t, p) <==> BornAtItsEvent(t, p)
  {
    if !BirthRowMismatch(t, p) {
      var s :| s in FirstRows(t, p);
      assert !EventMismatch(t, p, s);
      var e :| e in t.events && e.sequence == s.event;
      assert e in BirthEvents(t);
    }
    if BornAtItsEvent(t, p) {
      var s, e :| s in RowsOf(t, p.id) && s.sample == 0 && s.at == p.birth
        && e in BirthEvents(t) && e.sequence == s.event && e.at == p.birth;
      assert s in FirstRows(t, p);
      forall r | r in FirstRows(t, p) ensures r == s { RowsDistinct(t, r, s); }
      forall f | f in t.events && f.sequence == s.event ensures f == e {}
    }
  }

  lemma MismatchCounter(t: Tables)
    requires Schema(t) && UniqueSamples(t)
    ensures MismatchedParticles(t) == {} <==> forall p :: p in t.particles ==> BornAtItsEvent(t, p)
  {
    forall p | p in t.particles ensures p in MismatchedParticles(t) <==> !BornAtItsEvent(t, p) {
      BirthRowExact(t, p);
    }
    if forall p :: p in t.particles ==> BornAtItsEvent(t, p) {
      assert MismatchedParticles(t) == {};
    }
  }

  /** Eight conjuncts over six counting queries: the flag is set exactly on a faithful population. */
  lemma AuditIsExact(t: Tables, start: Instant, dir: Direction, target: int)
    requires Schema(t) && UniqueSamples(t)
    ensures Audit(t, start, dir).Ok? && Valid(Audit(t, start, dir).value, target) <==>
            dir != OtherDirection && FaithfulPopulation(t, start, dir, target)
  {
    PartitionCounters(t, start, dir);
    EventCounters(t);
    MismatchCounter(t);
    hide Initial, Inflow, MisplacedInitial, MisplacedInflow, BackwardInflow, UnmatchedInstants, OrphanInstants,
         MismatchedParticles, Partitioned, BirthsMatchEvents, BornAtItsEvent, BirthInstants, BirthEvents, Schema;
  }

  // ------------------------------------------------------------------
  // Consequences across counters and across audits
  // ------------------------------------------------------------------

  ghost predicate BirthsBetween(t: Tables, births: set<Instant>, events: set<Event>) {
    && events <= BirthEvents(t)
    && (forall at :: at in births ==> exists e :: e in events && SoleBirthEvent(t, at, e))
    && (forall e :: e in events ==> e.at in births)
  }

  lemma CorrespondenceSize(t: Tables, births: set<Instant>, events: set<Event>)
    requires BirthsBetween(t, births, events)
    ensures |births| == |events|
  {
    var f := (e: Event) => e.at;
    forall e, g | e in events && g in events && f(e) == f(g) ensures e == g {
      var h :| SoleBirthEvent(t, e.at, h);
    }
    ImageSize(events, f);
    forall at | at in births ensures at in Image(events, f) {
      var e :| e in events && SoleBirthEvent(t, at, e);
      assert f(e) == at;
    }
    assert Image(events, f) == births;
  }

  /** In a faithful population the particles that came with the domain are target-many. */
  lemma TargetIsDomainFill(t: Tables, start: Instant, dir: Direction, target: int)
    requires FaithfulPopulation(t, start, dir, target)
    ensures |set p | p in t.particles && p.origin == DomainInitial| == target
    ensures dir != OtherDirection ==> forall p :: p in t.particles ==> (p.birth == start <==> p.origin == DomainInitial)
  {
    assert (set p | p in t.particles && p.origin == DomainInitial) == Initial(t, start);
  }

  /** The two reported counts are equal although the audit never compares them. */
  lemma BirthCountsAgree(t: Tables)
    requires BirthsMatchEvents(t)
    ensures |BirthInstants(t)| == |BirthEvents(t)|
  {
    CorrespondenceSize(t, BirthInstants(t), BirthEvents(t));
  }

  /** SQL's remainder: truncated toward zero, null for a zero divisor. */
  function SqlRemainder(a: int, b: int): Option<int> {
    if b == 0 then None
    else if a >= 0 then Some(a % b)
    else Some(-((-a) % b))
  }

  function OffsetNanoseconds(at: Instant, start: Instant): int {
    (at.seconds - start.seconds) * NANOSECONDS + (at.nanosecond - start.nanosecond)
  }

  /** The instant is off the macro-step lattice of the run. */
  predicate Interior(at: Instant, start: Instant, stepSeconds: int) {
    var r := SqlRemainder(OffsetNanoseconds(at, start), stepSeconds * NANOSECONDS);
    r.Some? && r.value != 0
  }

  /** Off the lattice: no whole number of macro steps leads from the start to the instant, in either direction. */
  lemma InteriorExact(at: Instant, start: Instant, stepSeconds: int)
    ensures Interior(at, start, stepSeconds) <==>
            stepSeconds != 0 && forall k: int :: Elapsed(Forward, start, at) != k * (stepSeconds * NANOSECONDS)
  {
    var a, b := Elapsed(Forward, start, at), stepSeconds * NANOSECONDS;
    if b != 0 {
      RemainderExact(a, b);
    }
  }

  lemma RemainderExact(a: int, b: int)
    requires b != 0
    ensures SqlRemainder(a, b) == Some(0) <==> exists k: int :: a == k * b
  {
    var n: nat := if a >= 0 then a else -a;
    if SqlRemainder(a, b) == Some(0) {
      assert n == n / b * b;
      assert a == (if a >= 0 then n / b else -(n / b)) * b;
    }
    if k: int :| a == k * b {
      var j := if a >= 0 then k else -k;
      assert n == j * b by { NegatedProduct(k, b); }
      MultipleRemainder(n, j, b);
    }
  }

  lemma NegatedProduct(k: int, b: int)
    ensures (-k) * b == -(k * b)
  {
  }

  lemma MultipleRemainder(n: int, j: int, b: int)
    requires b != 0 && n == j * b
    ensures n % b == 0
  {
    var q, r := n / b, n % b;
    hide *;
    assert n == q * b + r && 0 <= r < (if b > 0 then b else -b);
    assert (j - q) * b == r;
    var d := j - q;
    if b > 0 {
      assert d >= 1 ==> d * b >= b;
      assert d <= -1 ==> d * b <= -b;
    } else {
      assert d >= 1 ==> d * b <= b;
      assert d <= -1 ==> d * b >= -b;
    }
  }

  ghost function InteriorBirths(t: Tables, start: Instant, stepSeconds: int): set<Instant> {
    set p | p in t.particles && Interior(p.birth, start, stepSeconds) :: p.birth
  }

  /** The interior-birth gate counts exactly the birth events strictly inside a macro step. */
  lemma InteriorBirthsAreEvents(t: Tables, start: Instant, stepSeconds: int)
    requires BirthsMatchEvents(t)
    ensures |InteriorBirths(t, start, stepSeconds)|
            == |set e | e in BirthEvents(t) && Interior(e.at, start, stepSeconds)|
  {
    var births := InteriorBirths(t, start, stepSeconds);
    var events := set e | e in BirthEvents(t) && Interior(e.at, start, stepSeconds);
    forall at | at in births ensures exists e :: e in events && SoleBirthEvent(t, at, e) {
      var p :| p in t.particles && p.birth == at;
      var e :| SoleBirthEvent(t, p.birth, e);
      assert e in events;
    }
    CorrespondenceSize(t, births, events);
  }

  /** A population that passes has no birth mismatch left for the lifecycle audit to find. */
  lemma PopulationImpliesBirthCounter(t: Tables, start: Instant, dir: Direction, target: int)
    requires Schema(t) && UniqueSamples(t) && FaithfulPopulation(t, start, dir, target)
    ensures LifecycleAudit.BirthMismatches(t) == {}
  {
    forall p | p in t.particles ensures |LifecycleAudit.RowsAtBirth(t, p)| == 1 {
      assert BornAtItsEvent(t, p);
      LifecycleAudit.BirthExact(t, p);
    }
  }
}
