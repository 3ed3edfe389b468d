/**
 The lifecycle audit of a finished run: fourteen independent table counters and one flag.

 The audit is stated as the queries compute it; FaithfulRun states, without any counter, what a
 lifecycle-faithful state table is; AuditIsExact proves the flag equivalent to it.
 */
module LifecycleAudit {
  import opened Wrappers
  import opened RunTables
  import opened Numbering
  import opened Counting

  const OUTPUT_INTERVAL_SECONDS := 600
  const DURATION_SECONDS := 3600

  datatype Key = Key(particle: int, at: Instant)

  datatype AuditError = DuplicateSampleKey | MissingFirstEvent | InvalidDirection

  // ------------------------------------------------------------------
  // Schedule and expected rows
  // ------------------------------------------------------------------

  function Sign(dir: Direction): int {
    if dir == Forward then 1 else -1
  }

  /** The output schedule that starts at the instant of event 0. */
  function Schedule(first: Instant, dir: Direction): seq<Instant> {
    seq(DURATION_SECONDS / OUTPUT_INTERVAL_SECONDS + 1,
        step => Instant(first.seconds + Sign(dir) * step * OUTPUT_INTERVAL_SECONDS, first.nanosecond))
  }

  function RunEnd(first: Instant, dir: Direction): Instant {
    var schedule := Schedule(first, dir);
    schedule[|schedule| - 1]
  }

  /** Seven instants, ten minutes apart in the direction of the run, from event 0 to an hour later. */
  lemma ScheduleElapsed(first: Instant, dir: Direction)
    requires dir != OtherDirection
    ensures |Schedule(first, dir)| == 7
    ensures forall i :: 0 <= i < 7 ==>
              Schedule(first, dir)[i].nanosecond == first.nanosecond
              && Elapsed(dir, first, Schedule(first, dir)[i]) == i * 600 * NANOSECONDS
    ensures Elapsed(dir, first, RunEnd(first, dir)) == 3600 * NANOSECONDS
  {
  }

  /** The schedule instants inside each particle's lifetime. */
  ghost function ExpectedSchedule(t: Tables, first: Instant, dir: Direction): set<Key> {
    set p, at | p in t.particles && at in Schedule(first, dir)
                && NotBefore(dir, at, p.birth)
                && (forall x :: x in t.terminations && x.id == p.id ==> NotBefore(dir, x.at, at))
              :: Key(p.id, at)
  }

  ghost function BirthKeys(t: Tables): set<Key> {
    set p | p in t.particles :: Key(p.id, p.birth)
  }

  ghost function TerminationKeys(t: Tables): set<Key> {
    set x | x in t.terminations :: Key(x.id, x.at)
  }

  /** Every (particle, instant) at which the lifecycle calls for a state row. */
  ghost function ExpectedKeys(t: Tables, first: Instant, dir: Direction): set<Key> {
    ExpectedSchedule(t, first, dir) + BirthKeys(t) + TerminationKeys(t)
  }

  function KeyOf(s: State): Key {
    Key(s.particle, s.at)
  }

  /** The (particle, instant) of every state row, in table order. */
  function Keys(t: Tables): (keys: seq<Key>) {
    seq(|t.states|, i requires 0 <= i < |t.states| => KeyOf(t.states[i]))
  }

  // ------------------------------------------------------------------
  // The counters
  // ------------------------------------------------------------------

  datatype Counters = Counters(
    missingScheduled: nat,
    duplicateScheduled: nat,
    invalidExtraKinds: nat,
    expectedRows: nat,
    actualRows: nat,
    invalidContiguous: nat,
    nonmonotonicSamples: nat,
    birthMismatches: nat,
    terminationMismatches: nat,
    missingFinal: nat,
    scheduledStateMismatches: nat,
    unrelatedRows: nat,
    stateEventTimeMismatches: nat,
    emptyEvents: nat,
    invalidEventSequence: nat)

  ghost function EventsAt(t: Tables, at: Instant): set<Event> {
    set e | e in t.events && e.at == at
  }

  ghost function RowsAt(t: Tables, key: Key): set<State> {
    set s | s in t.states && KeyOf(s) == key
  }

  ghost function SampleNumbers(rows: set<State>): set<int> {
    set s | s in rows :: s.sample
  }

  /** MIN, MAX and COUNT(*) of one particle's rows disagree with 0..n-1. */
  ghost predicate BadNumbering(rows: set<State>) {
    var samples := SampleNumbers(rows);
    samples == {} || MinOf(samples) != 0 || |rows| != MaxOf(samples) + 1 || MaxOf(samples) < 0
  }

  /** A row whose event does not come after the event of the particle's previous sample. */
  ghost predicate OutOfOrder(t: Tables, s: State) {
    exists r :: r in t.states && r.particle == s.particle && r.sample == s.sample - 1 && s.event <= r.event
  }

  ghost function RowsAtBirth(t: Tables, p: Particle): set<State> {
    set s | s in RowsOf(t, p.id) && s.sample == 0 && s.at == p.birth
  }

  ghost predicate IsLast(rows: set<State>, s: State) {
    s in rows && SampleNumbers(rows) != {} && s.sample == MaxOf(SampleNumbers(rows))
  }

  /** SQL's a != b: unknown, hence not counted, when a is null. */
  predicate SqlDiffers(a: Option<string>, b: string) {
    a.Some? && a.value != b
  }

  ghost predicate TerminationMismatch(t: Tables, x: Termination) {
    var rows := RowsOf(t, x.id);
    || rows == {}
    || exists s :: IsLast(rows, s) && (s.at != x.at || s.status != Terminated || SqlDiffers(s.reason, x.reason))
  }

  ghost predicate HasTermination(t: Tables, id: int) {
    exists x :: x in t.terminations && x.id == id
  }

  ghost predicate FinalMissing(t: Tables, p: Particle, end: Instant) {
    var rows := RowsOf(t, p.id);
    !HasTermination(t, p.id)
    && (rows == {} || exists s :: IsLast(rows, s) && (s.at != end || s.status != Alive))
  }

  ghost predicate Unrelated(t: Tables, s: State, schedule: seq<Instant>) {
    exists p :: p in t.particles && p.id == s.particle
      && s.at !in schedule && s.at != p.birth
      && (forall x :: x in t.terminations && x.id == s.particle ==> s.at != x.at)
  }

  ghost predicate TimeMismatch(t: Tables, s: State) {
    exists e :: e in t.events && e.sequence == s.event && e.at != s.at
  }

  ghost predicate EmptyEvent(t: Tables, e: Event) {
    forall s :: s in t.states ==> s.event != e.sequence
  }

  ghost function EventNumbers(t: Tables): set<int> {
    set e | e in t.events :: e.sequence
  }

  ghost function MissingScheduled(t: Tables, schedule: seq<Instant>): set<Instant> {
    set at | at in schedule && |EventsAt(t, at)| == 0
  }

  ghost function DuplicateScheduled(t: Tables, schedule: seq<Instant>): set<Instant> {
    set at | at in schedule && |EventsAt(t, at)| > 1
  }

  ghost function InvalidExtraKinds(t: Tables, schedule: seq<Instant>): set<Event> {
    set e | e in t.events && e.at !in schedule && e.kind != BirthEvent && e.kind != TerminationEvent
  }

  ghost function MisnumberedParticles(t: Tables): set<Particle> {
    set p | p in t.particles && BadNumbering(RowsOf(t, p.id))
  }

  ghost function NonmonotonicParticles(t: Tables): set<int> {
    set s | s in t.states && OutOfOrder(t, s) :: s.particle
  }

  ghost function BirthMismatches(t: Tables): set<Particle> {
    set p | p in t.particles && |RowsAtBirth(t, p)| != 1
  }

  ghost function TerminationMismatches(t: Tables): set<Termination> {
    set x | x in t.terminations && TerminationMismatch(t, x)
  }

  ghost function MissingFinal(t: Tables, end: Instant): set<Particle> {
    set p | p in t.particles && FinalMissing(t, p, end)
  }

  ghost function ScheduledStateMismatches(t: Tables, expected: set<Key>): set<Key> {
    set k | k in expected && |RowsAt(t, k)| != 1
  }

  ghost function UnrelatedRows(t: Tables, schedule: seq<Instant>): set<State> {
    set s | s in t.states && Unrelated(t, s, schedule)
  }

  ghost function StateEventTimeMismatches(t: Tables): set<State> {
    set s | s in t.states && TimeMismatch(t, s)
  }

  ghost function EmptyEvents(t: Tables): set<Event> {
    set e | e in t.events && EmptyEvent(t, e)
  }

  ghost predicate EventSequenceInvalid(t: Tables) {
    var numbers := EventNumbers(t);
    !(numbers != {} && MinOf(numbers) == 0 && |t.events| == MaxOf(numbers) + 1)
  }

  /** COUNT(*) of every query. */
  ghost function Count(t: Tables, first: Instant, dir: Direction): Counters {
    var schedule := Schedule(first, dir);
    Counters(
      missingScheduled := |MissingScheduled(t, schedule)|,
      duplicateScheduled := |DuplicateScheduled(t, schedule)|,
      invalidExtraKinds := |InvalidExtraKinds(t, schedule)|,
      expectedRows := |ExpectedKeys(t, first, dir)|,
      actualRows := |t.states|,
      invalidContiguous := |MisnumberedParticles(t)|,
      nonmonotonicSamples := |NonmonotonicParticles(t)|,
      birthMismatches := |BirthMismatches(t)|,
      terminationMismatches := |TerminationMismatches(t)|,
      missingFinal := |MissingFinal(t, RunEnd(first, dir))|,
      scheduledStateMismatches := |ScheduledStateMismatches(t, ExpectedSchedule(t, first, dir))|,
      unrelatedRows := |UnrelatedRows(t, schedule)|,
      stateEventTimeMismatches := |StateEventTimeMismatches(t)|,
      emptyEvents := |EmptyEvents(t)|,
      invalidEventSequence := if EventSequenceInvalid(t) then 1 else 0)
  }

  /** Every conjunct of the flag except the unrelated-rows counter. */
  predicate ValidButUnrelated(c: Counters) {
    && c.actualRows == c.expectedRows
    && c.missingScheduled == 0
    && c.duplicateScheduled == 0
    && c.invalidExtraKinds == 0
    && c.invalidContiguous == 0
    && c.nonmonotonicSamples == 0
    && c.birthMismatches == 0
    && c.terminationMismatches == 0
    && c.missingFinal == 0
    && c.scheduledStateMismatches == 0
    && c.stateEventTimeMismatches == 0
    && c.emptyEvents == 0
    && c.invalidEventSequence == 0
  }

  /** The flag the audit reports. */
  predicate Valid(c: Counters) {
    ValidButUnrelated(c) && c.unrelatedRows == 0
  }

  /** The whole audit: index creation, event 0, direction, then the counters. */
  ghost function Audit(t: Tables, dir: Direction): Result<Counters, AuditError> {
    if !UniqueSamples(t) then Err(DuplicateSampleKey)
    else if !exists e :: e in t.events && e.sequence == 0 then Err(MissingFirstEvent)
    else if dir == OtherDirection then Err(InvalidDirection)
    else
      var e :| e in t.events && e.sequence == 0;
      Ok(Count(t, e.at, dir))
  }

  // ------------------------------------------------------------------
  // What a faithful state table is
  // ------------------------------------------------------------------

  /** Each expected (particle, instant) has one row and there is no other row. */
  ghost predicate CoversLifecycle(t: Tables, first: Instant, dir: Direction) {
    multiset(Keys(t)) == multiset(ExpectedKeys(t, first, dir))
  }

  ghost predicate SamplesNumbered(t: Tables) {
    forall p :: p in t.particles ==>
      RowsOf(t, p.id) != {} && SampleNumbers(RowsOf(t, p.id)) == Range(|RowsOf(t, p.id)|)
  }

  /** Over all pairs of samples of a particle, not only adjacent ones. */
  ghost predicate EventsAdvance(t: Tables) {
    forall s, r :: s in t.states && r in t.states && s.particle == r.particle && s.sample < r.sample
      ==> s.event < r.event
  }

  ghost predicate BornAtSampleZero(t: Tables) {
    forall p :: p in t.particles ==>
      exists s :: s in RowsOf(t, p.id) && s.sample == 0 && s.at == p.birth
  }

  ghost predicate Latest(rows: set<State>, s: State) {
    s in rows && forall r :: r in rows ==> r.sample <= s.sample
  }

  ghost predicate ClosedByTermination(t: Tables) {
    forall x :: x in t.terminations ==> Closed(t, x)
  }

  /** The particle's last row is at the termination, terminated, with the same reason or none. */
  ghost predicate Closed(t: Tables, x: Termination) {
    exists s :: Latest(RowsOf(t, x.id), s) && s.at == x.at && s.status == Terminated
      && (s.reason == None || s.reason == Some(x.reason))
  }

  ghost predicate AliveAtRunEnd(t: Tables, end: Instant) {
    forall p :: p in t.particles && !HasTermination(t, p.id) ==> EndsAlive(t, p, end)
  }

  ghost predicate EndsAlive(t: Tables, p: Particle, end: Instant) {
    exists s :: Latest(RowsOf(t, p.id), s) && s.at == end && s.status == Alive
  }

  ghost predicate OneEventPerScheduleInstant(t: Tables, schedule: seq<Instant>) {
    forall at :: at in schedule ==>
      exists e :: e in t.events && e.at == at && forall f :: f in t.events && f.at == at ==> f == e
  }

  ghost predicate ExtraEventsAreLifecycle(t: Tables, schedule: seq<Instant>) {
    forall e :: e in t.events && e.at !in schedule ==> e.kind == BirthEvent || e.kind == TerminationEvent
  }

  ghost predicate RowsAtTheirEvent(t: Tables) {
    forall s, e :: s in t.states && e in t.events && e.sequence == s.event ==> s.at == e.at
  }

  ghost predicate EveryEventUsed(t: Tables) {
    forall e :: e in t.events ==> exists s :: s in t.states && s.event == e.sequence
  }

  ghost predicate EventsNumbered(t: Tables) {
    t.events != {} && EventNumbers(t) == Range(|t.events|)
  }

  ghost predicate FaithfulRun(t: Tables, first: Instant, dir: Direction) {
    && CoversLifecycle(t, first, dir)
    && SamplesNumbered(t)
    && EventsAdvance(t)
    && BornAtSampleZero(t)
    && ClosedByTermination(t)
    && AliveAtRunEnd(t, RunEnd(first, dir))
    && OneEventPerScheduleInstant(t, Schedule(first, dir))
    && ExtraEventsAreLifecycle(t, Schedule(first, dir))
    && RowsAtTheirEvent(t)
    && EveryEventUsed(t)
    && EventsNumbered(t)
  }

  // ------------------------------------------------------------------
  // Single counters
  // ------------------------------------------------------------------

  lemma NumberingExact(t: Tables, id: int)
    requires UniqueSamples(t)
    ensures var rows := RowsOf(t, id);
            !BadNumbering(rows) <==> rows != {} && SampleNumbers(rows) == Range(|rows|)
  {
    var rows := RowsOf(t, id);
    var f := (s: State) => s.sample;
    forall s, r | s in rows && r in rows && f(s) == f(r) ensures s == r {
      RowsDistinct(t, s, r);
    }
    ImageSize(rows, f);
    assert SampleNumbers(rows) == Image(rows, f);
    if rows != {} {
      var s :| s in rows;
      assert s.sample in SampleNumbers(rows);
      GapFree(SampleNumbers(rows));
    }
  }

  lemma LatestExact(t: Tables, id: int, s: State)
    ensures IsLast(RowsOf(t, id), s) <==> Latest(RowsOf(t, id), s)
  {
    var rows := RowsOf(t, id);
    if s in rows {
      assert s.sample in SampleNumbers(rows);
      var m := MaxOf(SampleNumbers(rows));
      var r :| r in rows && r.sample == m;
      forall q | q in rows ensures q.sample <= m {
        assert q.sample in SampleNumbers(rows);
      }
    }
  }

  lemma LatestUnique(t: Tables, id: int, s: State, r: State)
    requires UniqueSamples(t) && Latest(RowsOf(t, id), s) && Latest(RowsOf(t, id), r)
    ensures s == r
  {
    RowsDistinct(t, s, r);
  }

  lemma LatestExists(t: Tables, id: int)
    requires RowsOf(t, id) != {}
    ensures exists s :: Latest(RowsOf(t, id), s)
  {
    var rows := RowsOf(t, id);
    var q :| q in rows;
    assert q.sample in SampleNumbers(rows);
    var s :| s in rows && s.sample == MaxOf(SampleNumbers(rows));
    LatestExact(t, id, s);
  }

  lemma BirthExact(t: Tables, p: Particle)
    requires UniqueSamples(t)
    ensures |RowsAtBirth(t, p)| == 1 <==> exists s :: s in RowsOf(t, p.id) && s.sample == 0 && s.at == p.birth
  {
    SingletonSize(RowsAtBirth(t, p));
    forall s, r | s in RowsAtBirth(t, p) && r in RowsAtBirth(t, p) ensures s == r {
      RowsDistinct(t, s, r);
    }
    if s :| s in RowsOf(t, p.id) && s.sample == 0 && s.at == p.birth {
      assert s in RowsAtBirth(t, p);
    }
  }

  lemma TerminationExact(t: Tables, x: Termination)
    requires UniqueSamples(t)
    ensures !TerminationMismatch(t, x) <==> Closed(t, x)
  {
    var rows := RowsOf(t, x.id);
    if rows != {} {
      LatestExists(t, x.id);
      var s :| Latest(rows, s);
      LatestExact(t, x.id, s);
      forall r ensures IsLast(rows, r) <==> r == s {
        LatestExact(t, x.id, r);
        if Latest(rows, r) { LatestUnique(t, x.id, s, r); }
      }
      forall r | Latest(rows, r) ensures r == s { LatestUnique(t, x.id, s, r); }
    }
  }

  lemma FinalExact(t: Tables, p: Particle, end: Instant)
    requires UniqueSamples(t) && !HasTermination(t, p.id)
    ensures !FinalMissing(t, p, end) <==> EndsAlive(t, p, end)
  {
    var rows := RowsOf(t, p.id);
    if rows != {} {
      LatestExists(t, p.id);
      var s :| Latest(rows, s);
      LatestExact(t, p.id, s);
      forall r ensures IsLast(rows, r) <==> r == s {
        LatestExact(t, p.id, r);
        if Latest(rows, r) { LatestUnique(t, p.id, s, r); }
      }
      forall r | Latest(rows, r) ensures r == s { LatestUnique(t, p.id, s, r); }
    }
  }

  lemma OneEventExact(t: Tables, at: Instant)
    ensures |EventsAt(t, at)| == 1 <==>
            exists e :: e in t.events && e.at == at && forall f :: f in t.events && f.at == at ==> f == e
  {
    SingletonSize(EventsAt(t, at));
    forall f ensures f in EventsAt(t, at) <==> f in t.events && f.at == at {}
    hide EventsAt;
  }

  lemma ScheduleEventsExact(t: Tables, schedule: seq<Instant>)
    ensures MissingScheduled(t, schedule) == {} && DuplicateScheduled(t, schedule) == {}
            <==> OneEventPerScheduleInstant(t, schedule)
  {
    forall at | at in schedule
      ensures at in MissingScheduled(t, schedule) || at in DuplicateScheduled(t, schedule) <==>
              !exists e :: e in t.events && e.at == at && forall f :: f in t.events && f.at == at ==> f == e
    {
      OneEventExact(t, at);
    }
    if OneEventPerScheduleInstant(t, schedule) {
      assert forall at :: at !in MissingScheduled(t, schedule) && at !in DuplicateScheduled(t, schedule);
    }
  }

  lemma EventNumbersExact(t: Tables)
    requires Schema(t)
    ensures !EventSequenceInvalid(t) <==> EventsNumbered(t)
  {
    var f := (e: Event) => e.sequence;
    ImageSize(t.events, f);
    assert EventNumbers(t) == Image(t.events, f);
    if t.events != {} {
      var e :| e in t.events;
      assert e.sequence in EventNumbers(t);
      GapFree(EventNumbers(t));
    }
  }

  /** Adjacent samples in order, samples gap-free: all pairs of samples in order. */
  lemma {:induction false} AdjacentLifts(t: Tables, s: State, r: State)
    requires UniqueSamples(t)
    requires s in t.states && r in t.states && s.particle == r.particle && s.sample < r.sample
    requires SampleNumbers(RowsOf(t, s.particle)) == Range(|RowsOf(t, s.particle)|)
    requires forall q :: q in t.states ==> !OutOfOrder(t, q)
    ensures s.event < r.event
    decreases r.sample - s.sample
  {
    var rows := RowsOf(t, s.particle);
    assert s in rows && r in rows;
    assert s.sample in SampleNumbers(rows) && r.sample in SampleNumbers(rows);
    assert r.sample - 1 in SampleNumbers(rows);
    var q :| q in rows && q.sample == r.sample - 1;
    assert !OutOfOrder(t, r);
    if q.sample == s.sample {
      RowsDistinct(t, s, q);
    } else {
      AdjacentLifts(t, s, q);
    }
  }

  // ------------------------------------------------------------------
  // Coverage
  // ------------------------------------------------------------------

  lemma KeyInKeys(t: Tables, s: State)
    requires s in t.states
    ensures KeyOf(s) in Keys(t)
  {
    var i :| 0 <= i < |t.states| && t.states[i] == s;
    assert Keys(t)[i] == KeyOf(s);
  }

  /** Counters that each look at one kind of row together force coverage: the pigeonhole. */
  lemma CoverageFromCounters(t: Tables, first: Instant, dir: Direction)
    requires UniqueSamples(t) && |t.states| == |ExpectedKeys(t, first, dir)|
    requires BornAtSampleZero(t) && ClosedByTermination(t)
    requires forall k :: k in ExpectedSchedule(t, first, dir) ==> |RowsAt(t, k)| == 1
    ensures CoversLifecycle(t, first, dir)
  {
    forall k | k in ExpectedKeys(t, first, dir) ensures k in Keys(t) {
      if k in ExpectedSchedule(t, first, dir) {
        SingletonSize(RowsAt(t, k));
        var s :| s in RowsAt(t, k);
        KeyInKeys(t, s);
      } else if k in BirthKeys(t) {
        var p :| p in t.particles && k == Key(p.id, p.birth);
        var s :| s in RowsOf(t, p.id) && s.sample == 0 && s.at == p.birth;
        KeyInKeys(t, s);
      } else {
        var x :| x in t.terminations && k == Key(x.id, x.at);
        var s :| Latest(RowsOf(t, x.id), s) && s.at == x.at;
        KeyInKeys(t, s);
      }
    }
    Pigeonhole(Keys(t), ExpectedKeys(t, first, dir));
  }

  /** Under coverage a (particle, instant) identifies a row. */
  lemma KeyIdentifiesRow(t: Tables, first: Instant, dir: Direction, s: State, r: State)
    requires CoversLifecycle(t, first, dir)
    requires s in t.states && r in t.states && KeyOf(s) == KeyOf(r)
    ensures s == r
  {
    var i :| 0 <= i < |t.states| && t.states[i] == s;
    var j :| 0 <= j < |t.states| && t.states[j] == r;
    assert Keys(t)[i] == Keys(t)[j];
    if i < j {
      EnumerationDistinct(Keys(t), ExpectedKeys(t, first, dir), i, j);
    } else if j < i {
      EnumerationDistinct(Keys(t), ExpectedKeys(t, first, dir), j, i);
    }
  }

  lemma RowIsExpected(t: Tables, first: Instant, dir: Direction, s: State)
    requires CoversLifecycle(t, first, dir) && s in t.states
    ensures KeyOf(s) in ExpectedKeys(t, first, dir)
  {
    KeyInKeys(t, s);
    assert KeyOf(s) in multiset(Keys(t));
  }

  lemma ExpectedHasOneRow(t: Tables, first: Instant, dir: Direction, k: Key)
    requires CoversLifecycle(t, first, dir) && k in ExpectedKeys(t, first, dir)
    ensures |RowsAt(t, k)| == 1
  {
    assert k in multiset(Keys(t));
    var i :| 0 <= i < |Keys(t)| && Keys(t)[i] == k;
    var s := t.states[i];
    assert s in RowsAt(t, k);
    forall r | r in RowsAt(t, k) ensures r == s { KeyIdentifiesRow(t, first, dir, s, r); }
    SingletonSize(RowsAt(t, k));
  }

  /** The lifecycle calls for a row of the particle at the instant. */
  ghost predicate CallsForRow(t: Tables, first: Instant, dir: Direction, id: int, at: Instant) {
    || (exists p :: p in t.particles && p.id == id
          && (at == p.birth
              || (at in Schedule(first, dir) && NotBefore(dir, at, p.birth)
                  && forall x :: x in t.terminations && x.id == id ==> NotBefore(dir, x.at, at))))
    || (exists x :: x in t.terminations && x.id == id && at == x.at)
  }

  /** Under coverage a particle has a row at an instant exactly when its lifecycle calls for one, and then one row. */
  lemma RowsExact(t: Tables, first: Instant, dir: Direction, id: int, at: Instant)
    requires CoversLifecycle(t, first, dir)
    ensures (exists s :: s in t.states && s.particle == id && s.at == at) <==> CallsForRow(t, first, dir, id, at)
    ensures forall s, r :: s in t.states && r in t.states && KeyOf(s) == KeyOf(r) == Key(id, at) ==> s == r
  {
    var k := Key(id, at);
    assert k in ExpectedKeys(t, first, dir) <==> CallsForRow(t, first, dir, id, at);
    forall s, r | s in t.states && r in t.states && KeyOf(s) == KeyOf(r) == Key(id, at) ensures s == r {
      KeyIdentifiesRow(t, first, dir, s, r);
    }
    if s :| s in t.states && s.particle == id && s.at == at { RowIsExpected(t, first, dir, s); }
    if k in ExpectedKeys(t, first, dir) {
      ExpectedHasOneRow(t, first, dir, k);
      SingletonSize(RowsAt(t, k));
    }
  }

  /** A row of a particle outside the particle table can only be that particle's termination. */
  lemma OrphanRow(t: Tables, first: Instant, dir: Direction, s: State)
    requires CoversLifecycle(t, first, dir) && s in t.states
    requires forall p :: p in t.particles ==> p.id != s.particle
    ensures KeyOf(s) in TerminationKeys(t)
  {
    RowIsExpected(t, first, dir, s);
  }

  lemma EventsAdvanceFromCounters(t: Tables, first: Instant, dir: Direction)
    requires Schema(t) && UniqueSamples(t)
    requires CoversLifecycle(t, first, dir) && SamplesNumbered(t)
    requires forall q :: q in t.states ==> !OutOfOrder(t, q)
    ensures EventsAdvance(t)
  {
    forall s, r | s in t.states && r in t.states && s.particle == r.particle && s.sample < r.sample
      ensures s.event < r.event
    {
      if p :| p in t.particles && p.id == s.particle {
        AdjacentLifts(t, s, r);
      } else {
        OrphanRow(t, first, dir, s);
        OrphanRow(t, first, dir, r);
        assert KeyOf(s) == KeyOf(r);
        KeyIdentifiesRow(t, first, dir, s, r);
        assert false;
      }
    }
  }

  lemma NoUnrelatedRow(t: Tables, first: Instant, dir: Direction)
    requires Schema(t) && CoversLifecycle(t, first, dir)
    ensures UnrelatedRows(t, Schedule(first, dir)) == {}
  {
    forall s | s in t.states ensures !Unrelated(t, s, Schedule(first, dir)) {
      RowIsExpected(t, first, dir, s);
    }
  }

  // ------------------------------------------------------------------
  // Each counter against its clause
  // ------------------------------------------------------------------

  lemma NumberingCounter(t: Tables)
    requires UniqueSamples(t)
    ensures MisnumberedParticles(t) == {} <==> SamplesNumbered(t)
  {
    forall p | p in t.particles
      ensures p in MisnumberedParticles(t) <==>
              !(RowsOf(t, p.id) != {} && SampleNumbers(RowsOf(t, p.id)) == Range(|RowsOf(t, p.id)|))
    {
      NumberingExact(t, p.id);
    }
    if SamplesNumbered(t) { assert forall p :: p !in MisnumberedParticles(t); }
  }

  lemma BirthCounter(t: Tables)
    requires UniqueSamples(t)
    ensures BirthMismatches(t) == {} <==> BornAtSampleZero(t)
  {
    forall p | p in t.particles
      ensures p in BirthMismatches(t) <==> !exists s :: s in RowsOf(t, p.id) && s.sample == 0 && s.at == p.birth
    {
      BirthExact(t, p);
    }
    if BornAtSampleZero(t) { assert forall p :: p !in BirthMismatches(t); }
  }

  lemma TerminationCounter(t: Tables)
    requires UniqueSamples(t)
    ensures TerminationMismatches(t) == {} <==> ClosedByTermination(t)
  {
    forall x | x in t.terminations ensures x in TerminationMismatches(t) <==> !Closed(t, x) {
      TerminationExact(t, x);
    }
    if ClosedByTermination(t) { assert forall x :: x !in TerminationMismatches(t); }
  }

  lemma FinalCounter(t: Tables, end: Instant)
    requires UniqueSamples(t)
    ensures MissingFinal(t, end) == {} <==> AliveAtRunEnd(t, end)
  {
    forall p | p in t.particles && !HasTermination(t, p.id)
      ensures p in MissingFinal(t, end) <==> !EndsAlive(t, p, end)
    {
      FinalExact(t, p, end);
    }
    if AliveAtRunEnd(t, end) { assert forall p :: p !in MissingFinal(t, end); }
  }

  lemma MonotonicCounter(t: Tables)
    ensures NonmonotonicParticles(t) == {} <==> forall q :: q in t.states ==> !OutOfOrder(t, q)
  {
    forall q | q in t.states && OutOfOrder(t, q) ensures q.particle in NonmonotonicParticles(t) {}
  }

  lemma EventTimeCounter(t: Tables)
    ensures StateEventTimeMismatches(t) == {} <==> RowsAtTheirEvent(t)
  {
    forall s | s in t.states ensures s in StateEventTimeMismatches(t) <==> TimeMismatch(t, s) {}
    if RowsAtTheirEvent(t) {
      assert forall s :: s !in StateEventTimeMismatches(t);
    } else {
      var s, e :| s in t.states && e in t.events && e.sequence == s.event && s.at != e.at;
      assert TimeMismatch(t, s);
    }
  }

  lemma EmptyEventCounter(t: Tables)
    ensures EmptyEvents(t) == {} <==> EveryEventUsed(t)
  {
    forall e | e in t.events
      ensures e in EmptyEvents(t) <==> !exists s :: s in t.states && s.event == e.sequence
    {}
    if EveryEventUsed(t) { assert forall e :: e !in EmptyEvents(t); }
  }

  lemma ExtraKindCounter(t: Tables, schedule: seq<Instant>)
    ensures InvalidExtraKinds(t, schedule) == {} <==> ExtraEventsAreLifecycle(t, schedule)
  {
    forall e ensures e in InvalidExtraKinds(t, schedule) <==>
      e in t.events && e.at !in schedule && e.kind != BirthEvent && e.kind != TerminationEvent {}
  }

  // ------------------------------------------------------------------
  // The flag is exact
  // ------------------------------------------------------------------

  lemma ValidIsFaithful(t: Tables, first: Instant, dir: Direction)
    requires Schema(t) && UniqueSamples(t) && ValidButUnrelated(Count(t, first, dir))
    ensures FaithfulRun(t, first, dir)
  {
    var schedule := Schedule(first, dir);
    ScheduleEventsExact(t, schedule);
    EventNumbersExact(t);
    NumberingCounter(t);
    BirthCounter(t);
    TerminationCounter(t);
    FinalCounter(t, RunEnd(first, dir));
    EventTimeCounter(t);
    EmptyEventCounter(t);
    ExtraKindCounter(t, schedule);
    MonotonicCounter(t);
    ScheduledRows(t, first, dir);
    CoverageFromCounters(t, first, dir);
    EventsAdvanceFromCounters(t, first, dir);
  }

  lemma ScheduledRows(t: Tables, first: Instant, dir: Direction)
    ensures ScheduledStateMismatches(t, ExpectedSchedule(t, first, dir)) == {} <==>
            forall k :: k in ExpectedSchedule(t, first, dir) ==> |RowsAt(t, k)| == 1
  {
    var expected := ExpectedSchedule(t, first, dir);
    forall k ensures k in ScheduledStateMismatches(t, expected) <==> k in expected && |RowsAt(t, k)| != 1 {}
  }

  lemma FaithfulIsValid(t: Tables, first: Instant, dir: Direction)
    requires Schema(t) && UniqueSamples(t) && FaithfulRun(t, first, dir)
    ensures Valid(Count(t, first, dir))
  {
    var schedule := Schedule(first, dir);
    ScheduleEventsExact(t, schedule);
    EventNumbersExact(t);
    NumberingCounter(t);
    BirthCounter(t);
    TerminationCounter(t);
    FinalCounter(t, RunEnd(first, dir));
    EventTimeCounter(t);
    EmptyEventCounter(t);
    ExtraKindCounter(t, schedule);
    CoveredCounters(t, first, dir);
    NoUnrelatedRow(t, first, dir);
  }

  lemma CoveredCounters(t: Tables, first: Instant, dir: Direction)
    requires CoversLifecycle(t, first, dir) && EventsAdvance(t)
    ensures |t.states| == |ExpectedKeys(t, first, dir)|
    ensures ScheduledStateMismatches(t, ExpectedSchedule(t, first, dir)) == {}
    ensures NonmonotonicParticles(t) == {}
  {
    assert |multiset(Keys(t))| == |multiset(ExpectedKeys(t, first, dir))|;
    forall k | k in ExpectedSchedule(t, first, dir) ensures |RowsAt(t, k)| == 1 {
      ExpectedHasOneRow(t, first, dir, k);
    }
    ScheduledRows(t, first, dir);
    MonotonicCounter(t);
  }

  /**
   Fourteen counters, one bijection: the audit succeeds with its flag set exactly when the sample
   key is unique and the tables are a faithful run along the schedule that starts at event 0.
   */
  lemma AuditIsExact(t: Tables, dir: Direction)
    requires Schema(t)
    ensures Audit(t, dir).Ok? && Valid(Audit(t, dir).value) <==>
            UniqueSamples(t) && dir != OtherDirection
            && exists e :: e in t.events && e.sequence == 0 && FaithfulRun(t, e.at, dir)
  {
    if UniqueSamples(t) && dir != OtherDirection && exists e :: e in t.events && e.sequence == 0 {
      var e :| e in t.events && e.sequence == 0;
      assert forall f :: f in t.events && f.sequence == 0 ==> f == e;
      assert Audit(t, dir) == Ok(Count(t, e.at, dir));
      if Valid(Count(t, e.at, dir)) { ValidIsFaithful(t, e.at, dir); }
      if FaithfulRun(t, e.at, dir) { FaithfulIsValid(t, e.at, dir); }
    }
  }

  /** When the audit raises instead: a repeated sample key, then a missing event 0, then an unknown direction. */
  lemma AuditRefusals(t: Tables, dir: Direction)
    ensures Audit(t, dir) == Err(DuplicateSampleKey) <==> !UniqueSamples(t)
    ensures Audit(t, dir) == Err(MissingFirstEvent) <==>
            UniqueSamples(t) && forall e :: e in t.events ==> e.sequence != 0
    ensures Audit(t, dir) == Err(InvalidDirection) <==>
            UniqueSamples(t) && (exists e :: e in t.events && e.sequence == 0) && dir == OtherDirection
  {
    hide UniqueSamples, Count;
  }

  /** The unrelated-rows counter never decides the flag: the other conjuncts imply it. */
  lemma UnrelatedCounterIsImplied(t: Tables, first: Instant, dir: Direction)
    requires Schema(t) && UniqueSamples(t) && ValidButUnrelated(Count(t, first, dir))
    ensures Count(t, first, dir).unrelatedRows == 0
  {
    ValidIsFaithful(t, first, dir);
    NoUnrelatedRow(t, first, dir);
  }

  // ------------------------------------------------------------------
  // What the flag buys a reader of the table
  // ------------------------------------------------------------------

  /** Every row of a known particle lies between its birth and its termination. */
  ghost predicate RowsInsideLifetimes(t: Tables, dir: Direction) {
    forall s :: s in t.states ==> InsideLifetime(t, dir, s)
  }

  ghost predicate InsideLifetime(t: Tables, dir: Direction, s: State) {
    forall p :: p in t.particles && p.id == s.particle ==>
      && NotBefore(dir, s.at, p.birth)
      && forall x :: x in t.terminations && x.id == p.id ==> NotBefore(dir, x.at, s.at)
  }

  ghost predicate TerminationsAfterBirths(t: Tables, dir: Direction) {
    forall x, p :: x in t.terminations && p in t.particles && p.id == x.id ==> NotBefore(dir, x.at, p.birth)
  }

  lemma ExpectedInside(t: Tables, first: Instant, dir: Direction, s: State)
    requires Schema(t) && CoversLifecycle(t, first, dir) && TerminationsAfterBirths(t, dir) && s in t.states
    ensures InsideLifetime(t, dir, s)
  {
    RowIsExpected(t, first, dir, s);
    hide CoversLifecycle;
  }

  /**
   In either direction of time a valid table has no row outside a lifetime exactly when no
   termination precedes its particle's birth, which the audit itself never checks.
   */
  lemma LifetimesExact(t: Tables, first: Instant, dir: Direction)
    requires Schema(t) && CoversLifecycle(t, first, dir) && ClosedByTermination(t)
    ensures RowsInsideLifetimes(t, dir) <==> TerminationsAfterBirths(t, dir)
  {
    if TerminationsAfterBirths(t, dir) {
      forall s | s in t.states ensures InsideLifetime(t, dir, s) { ExpectedInside(t, first, dir, s); }
    }
    if RowsInsideLifetimes(t, dir) {
      forall x, p | x in t.terminations && p in t.particles && p.id == x.id ensures NotBefore(dir, x.at, p.birth) {
        assert Closed(t, x);
      }
    }
  }

  /** A valid table has no orphan row exactly when every termination is of a known particle. */
  lemma OrphanRowsExact(t: Tables, first: Instant, dir: Direction)
    requires CoversLifecycle(t, first, dir)
    ensures StatesHaveParticles(t) <==> TerminationsHaveParticles(t)
  {
    forall s | s in t.states ensures KeyOf(s) in ExpectedKeys(t, first, dir) {
      RowIsExpected(t, first, dir, s);
    }
    hide ExpectedSchedule, CoversLifecycle;
    forall x | x in t.terminations ensures exists s :: s in t.states && s.particle == x.id {
      var s := TerminationHasRow(t, first, dir, x);
    }
  }

  lemma TerminationHasRow(t: Tables, first: Instant, dir: Direction, x: Termination) returns (s: State)
    requires CoversLifecycle(t, first, dir) && x in t.terminations
    ensures s in t.states && s.particle == x.id
  {
    var k := Key(x.id, x.at);
    assert k in TerminationKeys(t) && k in multiset(Keys(t));
    var i :| 0 <= i < |Keys(t)| && Keys(t)[i] == k;
    s := t.states[i];
  }

  /** All rows at one scheduled instant share the single event of that instant. */
  lemma ScheduledRowsShareEvent(t: Tables, first: Instant, dir: Direction, s: State, r: State)
    requires Schema(t) && FaithfulRun(t, first, dir)
    requires s in t.states && r in t.states && s.at == r.at && s.at in Schedule(first, dir)
    ensures s.event == r.event
  {
    var e :| e in t.events && e.sequence == s.event;
    var f :| f in t.events && f.sequence == r.event;
  }

  /** b is strictly after a in the direction of the run. */
  predicate Later(dir: Direction, b: Instant, a: Instant) {
    NotBefore(dir, b, a) && b != a
  }

  /** Every particle's samples are in clock order. */
  ghost predicate SamplesFollowClock(t: Tables, dir: Direction) {
    forall s, r :: s in t.states && r in t.states && s.particle == r.particle ==>
      (s.sample < r.sample <==> Later(dir, r.at, s.at))
  }

  /** Some particle has a row at each of the two events. */
  ghost predicate ShareParticle(t: Tables, e: Event, f: Event) {
    exists s, r :: s in t.states && r in t.states && s.particle == r.particle
                   && s.event == e.sequence && r.event == f.sequence
  }

  /** Events that share a particle are numbered in clock order. */
  ghost predicate SharedEventsFollowClock(t: Tables, dir: Direction) {
    forall e, f :: e in t.events && f in t.events && e.sequence < f.sequence && ShareParticle(t, e, f) ==>
      Later(dir, f.at, e.at)
  }

  /** The order of two samples of a particle is the order of their events. */
  lemma SampleOrderIsEventOrder(t: Tables, s: State, r: State)
    requires UniqueSamples(t) && EventsAdvance(t)
    requires s in t.states && r in t.states && s.particle == r.particle
    ensures s.sample < r.sample <==> s.event < r.event
  {
    if s.sample == r.sample { RowsDistinct(t, s, r); }
  }

  lemma EventOfRow(t: Tables, s: State) returns (e: Event)
    requires Schema(t) && RowsAtTheirEvent(t) && s in t.states
    ensures e in t.events && e.sequence == s.event && e.at == s.at
  {
    e :| e in t.events && e.sequence == s.event;
  }

  lemma PairFollowsClock(t: Tables, dir: Direction, s: State, r: State)
    requires Schema(t) && UniqueSamples(t) && EventsAdvance(t) && RowsAtTheirEvent(t) && SharedEventsFollowClock(t, dir)
    requires s in t.states && r in t.states && s.particle == r.particle
    ensures s.sample < r.sample <==> Later(dir, r.at, s.at)
  {
    var e := EventOfRow(t, s);
    var f := EventOfRow(t, r);
    SampleOrderIsEventOrder(t, s, r);
    SampleOrderIsEventOrder(t, r, s);
    assert ShareParticle(t, e, f) && ShareParticle(t, f, e);
    if s.sample == r.sample { RowsDistinct(t, s, r); }
    hide Schema, UniqueSamples, EventsAdvance, RowsAtTheirEvent, ShareParticle;
    assert e.sequence < f.sequence ==> Later(dir, f.at, e.at);
    assert f.sequence < e.sequence ==> Later(dir, e.at, f.at);
  }

  /**
   In a faithful run every particle's samples are in clock order exactly when events that share a
   particle are numbered in clock order, which the audit never checks.
   */
  lemma SampleClockExact(t: Tables, first: Instant, dir: Direction)
    requires Schema(t) && UniqueSamples(t) && FaithfulRun(t, first, dir)
    ensures SamplesFollowClock(t, dir) <==> SharedEventsFollowClock(t, dir)
  {
    hide Schema, UniqueSamples, CoversLifecycle, EventsAdvance, RowsAtTheirEvent, NotBefore;
    if SamplesFollowClock(t, dir) {
      forall e, f | e in t.events && f in t.events && e.sequence < f.sequence && ShareParticle(t, e, f)
        ensures Later(dir, f.at, e.at)
      {
        var s, r :| s in t.states && r in t.states && s.particle == r.particle
                    && s.event == e.sequence && r.event == f.sequence;
        SampleOrderIsEventOrder(t, s, r);
        RowAtEvent(t, s, e);
        RowAtEvent(t, r, f);
      }
    }
    if SharedEventsFollowClock(t, dir) {
      forall s, r | s in t.states && r in t.states && s.particle == r.particle
        ensures s.sample < r.sample <==> Later(dir, r.at, s.at)
      {
        PairFollowsClock(t, dir, s, r);
      }
    }
  }

  lemma RowAtEvent(t: Tables, s: State, e: Event)
    requires RowsAtTheirEvent(t) && s in t.states && e in t.events && s.event == e.sequence
    ensures s.at == e.at
  {
  }

  /** The closing row carries the termination's reason exactly when it carries a reason. */
  lemma ReasonExact(t: Tables, x: Termination, s: State)
    requires UniqueSamples(t) && ClosedByTermination(t) && x in t.terminations
    requires Latest(RowsOf(t, x.id), s)
    ensures s.reason == Some(x.reason) <==> s.reason.Some?
  {
    assert Closed(t, x);
    var r :| Latest(RowsOf(t, x.id), r) && (r.reason == None || r.reason == Some(x.reason));
    LatestUnique(t, x.id, s, r);
  }
}
