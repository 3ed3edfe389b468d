/** The tables of one finished run, as testdata/M4_SQLITE_SCHEMA.v1.sql declares them. */
module RunTables {
  import opened Wrappers

  datatype Instant = Instant(seconds: int, nanosecond: int)

  datatype Direction = Forward | Backward | OtherDirection

  datatype OriginKind = Release | DomainInitial | DomainBoundary
  datatype EventKind = BirthEvent | StartEvent | IntervalEvent | EndEvent | TerminationEvent
  datatype Status = Alive | Terminated

  datatype Particle = Particle(id: int, birth: Instant, origin: OriginKind)
  datatype Termination = Termination(id: int, at: Instant, reason: string)
  datatype Event = Event(sequence: int, at: Instant, kind: EventKind)
  datatype State = State(particle: int, sample: int, event: int, at: Instant, status: Status, reason: Option<string>)

  datatype Tables = Tables(
    particles: set<Particle>,
    terminations: set<Termination>,
    events: set<Event>,
    states: seq<State>)

  /**
   The primary keys of particle, termination and output_event, and the key from state to event. The
   schema's two keys to particle are kept apart, because the audit's verdict does not rest on them.
   */
  ghost predicate Schema(t: Tables) {
    && (forall p, q :: p in t.particles && q in t.particles && p.id == q.id ==> p == q)
    && (forall x, y :: x in t.terminations && y in t.terminations && x.id == y.id ==> x == y)
    && (forall e, f :: e in t.events && f in t.events && e.sequence == f.sequence ==> e == f)
    && (forall s :: s in t.states ==> exists e :: e in t.events && e.sequence == s.event)
  }

  /** The foreign key from particle_state to particle: no orphan row. */
  ghost predicate StatesHaveParticles(t: Tables) {
    forall s :: s in t.states ==> exists p :: p in t.particles && p.id == s.particle
  }

  /** The foreign key from termination to particle. */
  ghost predicate TerminationsHaveParticles(t: Tables) {
    forall x :: x in t.terminations ==> exists p :: p in t.particles && p.id == x.id
  }

  /** The unique index on (particle, sample). */
  ghost predicate UniqueSamples(t: Tables) {
    forall i, j :: 0 <= i < j < |t.states| ==>
      t.states[i].particle != t.states[j].particle || t.states[i].sample != t.states[j].sample
  }

  ghost function RowsOf(t: Tables, id: int): set<State> {
    set s | s in t.states && s.particle == id
  }

  /** a is at or after b in the direction of the run. */
  predicate NotBefore(dir: Direction, a: Instant, b: Instant) {
    if dir == Forward then a.seconds > b.seconds || (a.seconds == b.seconds && a.nanosecond >= b.nanosecond)
    else a.seconds < b.seconds || (a.seconds == b.seconds && a.nanosecond <= b.nanosecond)
  }

  const NANOSECONDS := 1_000_000_000

  /** The nanosecond field of an instant, as the schema's check constraints bound it. */
  predicate InSecond(at: Instant) {
    0 <= at.nanosecond < NANOSECONDS
  }

  /** Nanoseconds that the run's clock has moved from one instant to another, in the run's direction. */
  function Elapsed(dir: Direction, from: Instant, to: Instant): int {
    var forward := (to.seconds - from.seconds) * NANOSECONDS + (to.nanosecond - from.nanosecond);
    if dir == Forward then forward else -forward
  }

  /** The two-column comparison is the order of the run's clock. */
  lemma NotBeforeIsElapsed(dir: Direction, a: Instant, b: Instant)
    requires InSecond(a) && InSecond(b)
    ensures NotBefore(dir, a, b) <==> Elapsed(dir, b, a) >= 0
  {
  }

  lemma RowsDistinct(t: Tables, s: State, r: State)
    requires UniqueSamples(t) && s in t.states && r in t.states
    requires s.particle == r.particle && s.sample == r.sample
    ensures s == r
  {
    var i :| 0 <= i < |t.states| && t.states[i] == s;
    var j :| 0 <= j < |t.states| && t.states[j] == r;
  }
}
