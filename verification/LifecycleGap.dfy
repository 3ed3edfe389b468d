/**
 Four runs that the lifecycle audit accepts although a reader of the flag would not expect them: one
 with a particle terminated before it is born, one with a row of a particle that is in no particle
 table, one with a closing row without a reason, and one whose samples run against the clock.
 */
module LifecycleGap {
  import opened Wrappers
  import opened RunTables
  import opened Numbering
  import opened Counting
  import opened LifecycleAudit

  datatype Variant = Inverted | Orphan | NullReason | Shuffled

  const START := Instant(0, 0)
  const BIRTH := Instant(700, 0)

  const ALIVE := Particle(1, START, DomainInitial)
  const LATE := Particle(2, BIRTH, DomainBoundary)

  function Death(v: Variant): Instant {
    Instant(if v == NullReason || v == Shuffled then 750 else 650, 0)
  }

  function Closing(v: Variant): Termination {
    Termination(2, Death(v), "left domain")
  }

  /** The second particle has a birth row unless it is unknown. */
  function RowTotal(v: Variant): int {
    if v == Orphan then 8 else 9
  }

  /** The schedule instant of row i < 7; the shuffled run swaps instants 1 and 2. */
  function SlotOf(v: Variant, i: int): (j: int)
    ensures 0 <= i < 7 ==> 0 <= j < 7
  {
    if v == Shuffled && (i == 1 || i == 2) then 3 - i else i
  }

  /** Rows 0..6 follow particle 1 along the schedule; then come particle 2's birth and termination. */
  function Row(v: Variant, i: int): (s: State)
    ensures s.event == i && s.particle == if i < 7 then 1 else 2
  {
    if i < 7 then State(1, i, i, Instant(600 * SlotOf(v, i), 0), Alive, None)
    else if i == 7 && v != Orphan then State(2, 0, 7, BIRTH, Alive, None)
    else State(2, RowTotal(v) - 8, i, Death(v), Terminated, if v == NullReason then None else Some("left domain"))
  }

  function EventOf(v: Variant, i: int): Event {
    Event(i, Row(v, i).at,
          if i < 7 then IntervalEvent else if i < RowTotal(v) - 1 then BirthEvent else TerminationEvent)
  }

  ghost predicate GapRun(v: Variant, t: Tables) {
    && (forall p :: p in t.particles <==> p == ALIVE || (p == LATE && v != Orphan))
    && (forall x :: x in t.terminations <==> x == Closing(v))
    && |t.states| == RowTotal(v) && (forall i :: 0 <= i < RowTotal(v) ==> t.states[i] == Row(v, i))
    && (forall e :: e in t.events <==> 0 <= e.sequence < RowTotal(v) && e == EventOf(v, e.sequence))
  }

  lemma GapRunExists(v: Variant) returns (t: Tables)
    ensures GapRun(v, t)
  {
    var rows := seq(RowTotal(v), i => Row(v, i));
    var events := set s | s in rows :: EventOf(v, s.event);
    forall e ensures e in events <==> 0 <= e.sequence < RowTotal(v) && e == EventOf(v, e.sequence) {
      if 0 <= e.sequence < RowTotal(v) && e == EventOf(v, e.sequence) { assert rows[e.sequence] in rows; }
    }
    t := Tables(if v == Orphan then {ALIVE} else {ALIVE, LATE}, {Closing(v)}, events, rows);
  }

  lemma RowByIndex(v: Variant, t: Tables, s: State)
    requires GapRun(v, t)
    ensures s in t.states <==> 0 <= s.event < RowTotal(v) && s == Row(v, s.event)
  {
    if 0 <= s.event < RowTotal(v) && s == Row(v, s.event) { assert t.states[s.event] == s; }
  }

  lemma Rows(v: Variant, t: Tables)
    requires GapRun(v, t)
    ensures forall s :: s in t.states <==> 0 <= s.event < RowTotal(v) && s == Row(v, s.event)
  {
    forall s ensures s in t.states <==> 0 <= s.event < RowTotal(v) && s == Row(v, s.event) { RowByIndex(v, t, s); }
  }

  lemma FirstSamples(v: Variant, t: Tables)
    requires GapRun(v, t)
    ensures forall k :: k in SampleNumbers(RowsOf(t, 1)) <==> 0 <= k < 7
  {
    var rows := RowsOf(t, 1);
    forall k ensures k in SampleNumbers(rows) <==> 0 <= k < 7 {
      if 0 <= k < 7 {
        RowByIndex(v, t, Row(v, k));
        assert Row(v, k) in rows && Row(v, k).sample == k;
      }
      if k in SampleNumbers(rows) {
        var s :| s in rows && s.sample == k;
        RowByIndex(v, t, s);
      }
    }
  }

  lemma FirstParticle(v: Variant, t: Tables)
    requires GapRun(v, t)
    ensures SampleNumbers(RowsOf(t, 1)) == Range(|RowsOf(t, 1)|) && |RowsOf(t, 1)| == 7
  {
    FirstSamples(v, t);
    hide SampleNumbers, Row, EventOf, GapRun;
    DenseSize(SampleNumbers(RowsOf(t, 1)), 7);
    SampleCount(v, t, 1);
  }

  lemma FirstEnds(v: Variant, t: Tables)
    requires GapRun(v, t)
    ensures Row(v, 0) in RowsOf(t, 1) && Latest(RowsOf(t, 1), Row(v, 6))
  {
    Rows(v, t);
    assert Row(v, 0) in RowsOf(t, 1) && Row(v, 6) in RowsOf(t, 1);
  }

  lemma SecondParticle(v: Variant, t: Tables)
    requires GapRun(v, t)
    ensures SampleNumbers(RowsOf(t, 2)) == Range(|RowsOf(t, 2)|) && |RowsOf(t, 2)| == RowTotal(v) - 7
    ensures Row(v, 7) in RowsOf(t, 2) && Latest(RowsOf(t, 2), Row(v, RowTotal(v) - 1))
  {
    Rows(v, t);
    var rows := RowsOf(t, 2);
    assert Row(v, 7) in rows && Row(v, RowTotal(v) - 1) in rows;
    DenseSize(SampleNumbers(rows), RowTotal(v) - 7);
    SampleCount(v, t, 2);
  }

  lemma SampleCount(v: Variant, t: Tables, id: int)
    requires GapRun(v, t)
    ensures |SampleNumbers(RowsOf(t, id))| == |RowsOf(t, id)|
  {
    Rows(v, t);
    var f := (s: State) => s.sample;
    assert SampleNumbers(RowsOf(t, id)) == Image(RowsOf(t, id), f);
    ImageSize(RowsOf(t, id), f);
  }

  lemma Coverage(v: Variant, t: Tables)
    requires GapRun(v, t)
    ensures CoversLifecycle(t, START, Forward)
  {
    var expected := ExpectedKeys(t, START, Forward);
    forall k | k in Keys(t) ensures k in expected {
      var i :| 0 <= i < RowTotal(v) && Keys(t)[i] == k;
      KeyExpected(v, t, i);
    }
    forall k | k in expected ensures k in Keys(t) { ExpectedKey(v, t, k); }
    DistinctEnumeration(Keys(t), expected);
  }

  lemma KeyExpected(v: Variant, t: Tables, i: nat)
    requires GapRun(v, t) && i < RowTotal(v)
    ensures KeyOf(Row(v, i)) in ExpectedKeys(t, START, Forward)
  {
    if i < 7 {
      var p := ALIVE;
      var at := Schedule(START, Forward)[SlotOf(v, i)];
      assert p in t.particles && at in Schedule(START, Forward) && NotBefore(Forward, at, p.birth);
      assert Key(p.id, at) in ExpectedSchedule(t, START, Forward);
    } else if i < RowTotal(v) - 1 {
      assert LATE in t.particles;
      assert Key(2, BIRTH) in BirthKeys(t);
    } else {
      assert Closing(v) in t.terminations;
      assert Key(2, Death(v)) in TerminationKeys(t);
    }
  }

  lemma ExpectedKey(v: Variant, t: Tables, k: Key)
    requires GapRun(v, t) && k in ExpectedKeys(t, START, Forward)
    ensures k in Keys(t)
  {
    var last := RowTotal(v) - 1;
    assert Keys(t)[0] == Key(1, START) && Keys(t)[last] == Key(2, Death(v));
    assert v != Orphan ==> Keys(t)[7] == Key(2, BIRTH);
    if k in ExpectedSchedule(t, START, Forward) {
      var schedule := Schedule(START, Forward);
      var j :| 0 <= j < |schedule| && schedule[j] == k.at;
      assert Closing(v) in t.terminations;
      assert k.particle == 1;
      assert Keys(t)[SlotOf(v, j)] == k;
    }
  }

  lemma EventTable(v: Variant, t: Tables)
    requires GapRun(v, t)
    ensures EventsNumbered(t)
  {
    var numbers := EventNumbers(t);
    forall k ensures k in numbers <==> 0 <= k < RowTotal(v) {
      if 0 <= k < RowTotal(v) { assert EventOf(v, k) in t.events && EventOf(v, k).sequence == k; }
    }
    DenseSize(numbers, RowTotal(v));
    EventCount(v, t);
  }

  lemma EventCount(v: Variant, t: Tables)
    requires GapRun(v, t)
    ensures |EventNumbers(t)| == |t.events|
  {
    var f := (e: Event) => e.sequence;
    assert EventNumbers(t) == Image(t.events, f);
    ImageSize(t.events, f);
  }

  lemma EventUse(v: Variant, t: Tables)
    requires GapRun(v, t)
    ensures EveryEventUsed(t) && RowsAtTheirEvent(t) && EventsAdvance(t)
  {
    Rows(v, t);
    forall e | e in t.events ensures exists s :: s in t.states && s.event == e.sequence {
      assert t.states[e.sequence] == Row(v, e.sequence);
    }
  }

  lemma ScheduleInstants(v: Variant, at: Instant)
    ensures at in Schedule(START, Forward) <==> exists j :: 0 <= j < 7 && EventOf(v, j).at == at
  {
    var schedule := Schedule(START, Forward);
    assert |schedule| == 7 && forall j :: 0 <= j < 7 ==> schedule[SlotOf(v, j)] == EventOf(v, j).at;
    if at in schedule {
      var k :| 0 <= k < 7 && schedule[k] == at;
      assert SlotOf(v, SlotOf(v, k)) == k && EventOf(v, SlotOf(v, k)).at == at;
    }
  }

  lemma EventTimes(v: Variant, t: Tables)
    requires GapRun(v, t)
    ensures OneEventPerScheduleInstant(t, Schedule(START, Forward))
    ensures ExtraEventsAreLifecycle(t, Schedule(START, Forward))
  {
    var schedule := Schedule(START, Forward);
    forall at | at in schedule
      ensures exists e :: e in t.events && e.at == at && forall f :: f in t.events && f.at == at ==> f == e
    {
      ScheduleInstants(v, at);
      var j :| 0 <= j < 7 && EventOf(v, j).at == at;
      var e := EventOf(v, j);
      assert e in t.events;
      forall f | f in t.events && f.at == at ensures f == e { OneEventAt(v, t, f, j); }
    }
    forall e | e in t.events && e.at !in schedule ensures e.kind == BirthEvent || e.kind == TerminationEvent {
      ScheduleInstants(v, e.at);
      assert EventOf(v, e.sequence).at == e.at;
    }
  }

  lemma OneEventAt(v: Variant, t: Tables, f: Event, j: nat)
    requires GapRun(v, t) && f in t.events && j < 7 && f.at == EventOf(v, j).at
    ensures f == EventOf(v, j)
  {
  }

  lemma Numbered(v: Variant, t: Tables)
    requires GapRun(v, t)
    ensures SamplesNumbered(t) && BornAtSampleZero(t)
  {
    FirstParticle(v, t);
    FirstEnds(v, t);
    SecondParticle(v, t);
    forall p | p in t.particles
      ensures exists s :: s in RowsOf(t, p.id) && s.sample == 0 && s.at == p.birth
      ensures RowsOf(t, p.id) != {} && SampleNumbers(RowsOf(t, p.id)) == Range(|RowsOf(t, p.id)|)
    {
      var s := if p == ALIVE then Row(v, 0) else Row(v, 7);
      assert s in RowsOf(t, p.id);
    }
  }

  lemma Ends(v: Variant, t: Tables)
    requires GapRun(v, t)
    ensures ClosedByTermination(t) && AliveAtRunEnd(t, RunEnd(START, Forward))
  {
    FirstEnds(v, t);
    SecondParticle(v, t);
    var end, last := RunEnd(START, Forward), Row(v, RowTotal(v) - 1);
    forall x | x in t.terminations ensures Closed(t, x) {
      assert Latest(RowsOf(t, 2), last) && last.at == Death(v);
    }
    assert Closing(v) in t.terminations;
    assert HasTermination(t, 2);
    forall p | p in t.particles && !HasTermination(t, p.id) ensures EndsAlive(t, p, end) {
      assert p == ALIVE;
      assert Latest(RowsOf(t, 1), Row(v, 6)) && Row(v, 6).at == end;
    }
  }

  lemma Fits(v: Variant, t: Tables)
    requires GapRun(v, t)
    ensures Schema(t) && UniqueSamples(t)
  {
    Rows(v, t);
    forall s | s in t.states ensures exists e :: e in t.events && e.sequence == s.event {
      assert EventOf(v, s.event) in t.events;
    }
  }

  lemma Faithful(v: Variant, t: Tables)
    requires GapRun(v, t)
    ensures FaithfulRun(t, START, Forward)
  {
    hide GapRun, CoversLifecycle, SamplesNumbered, EventsAdvance, BornAtSampleZero, ClosedByTermination, AliveAtRunEnd,
         OneEventPerScheduleInstant, ExtraEventsAreLifecycle, RowsAtTheirEvent, EveryEventUsed, EventsNumbered,
         Schedule;
    Numbered(v, t);
    Ends(v, t);
    Coverage(v, t);
    EventTable(v, t);
    EventUse(v, t);
    EventTimes(v, t);
  }

  lemma FirstEvent(v: Variant, t: Tables) returns (e: Event)
    requires GapRun(v, t)
    ensures e in t.events && e.sequence == 0 && e.at == START
  {
    e := EventOf(v, 0);
  }

  /** Every variant is faithful as the audit sees it, so its flag is set. */
  lemma Accepted(v: Variant, t: Tables)
    requires GapRun(v, t)
    ensures Schema(t) && FaithfulRun(t, START, Forward)
    ensures UniqueSamples(t) && Audit(t, Forward).Ok? && Valid(Audit(t, Forward).value)
  {
    hide *;
    Fits(v, t);
    Faithful(v, t);
    var e := FirstEvent(v, t);
    AuditIsExact(t, Forward);
  }

  /** The audit's flag is set on a run with a row after its particle's termination. */
  lemma TerminationBeforeBirthIsAccepted() returns (t: Tables)
    ensures Schema(t) && StatesHaveParticles(t) && Audit(t, Forward).Ok? && Valid(Audit(t, Forward).value)
    ensures !RowsInsideLifetimes(t, Forward)
  {
    t := GapRunExists(Inverted);
    Accepted(Inverted, t);
    ParticlesKnown(Inverted, t);
    TerminationOrder(Inverted, t);
    hide Audit, Valid, GapRun, Schema, UniqueSamples, StatesHaveParticles, TerminationsHaveParticles,
         TerminationsAfterBirths, RowsInsideLifetimes, CoversLifecycle, ClosedByTermination;
    LifetimesExact(t, START, Forward);
    OrphanRowsExact(t, START, Forward);
  }

  lemma ParticlesKnown(v: Variant, t: Tables)
    requires GapRun(v, t) && v != Orphan
    ensures TerminationsHaveParticles(t)
  {
    assert LATE in t.particles;
  }

  lemma TerminationOrder(v: Variant, t: Tables)
    requires GapRun(v, t) && v != Orphan
    ensures TerminationsAfterBirths(t, Forward) <==> v != Inverted
  {
    assert Closing(v) in t.terminations && LATE in t.particles;
  }

  /** The audit's flag is set on a run with a row of a particle that the particle table lacks. */
  lemma OrphanRowIsAccepted() returns (t: Tables, orphan: State)
    ensures Schema(t) && Audit(t, Forward).Ok? && Valid(Audit(t, Forward).value)
    ensures orphan in t.states && forall p :: p in t.particles ==> p.id != orphan.particle
  {
    t := GapRunExists(Orphan);
    Accepted(Orphan, t);
    orphan := Row(Orphan, 7);
    Rows(Orphan, t);
  }

  /** The audit's flag is set on a run whose closing row has no reason although its termination has one. */
  lemma NullReasonIsAccepted() returns (t: Tables, x: Termination, closing: State)
    ensures Schema(t) && StatesHaveParticles(t) && RowsInsideLifetimes(t, Forward)
    ensures Audit(t, Forward).Ok? && Valid(Audit(t, Forward).value)
    ensures x in t.terminations && Latest(RowsOf(t, x.id), closing) && closing.reason == None
  {
    t := GapRunExists(NullReason);
    Accepted(NullReason, t);
    x, closing := Closing(NullReason), Row(NullReason, 8);
    SecondParticle(NullReason, t);
    ParticlesKnown(NullReason, t);
    TerminationOrder(NullReason, t);
    assert x in t.terminations;
    hide Audit, Valid, GapRun, Schema, UniqueSamples, StatesHaveParticles, TerminationsHaveParticles,
         TerminationsAfterBirths, RowsInsideLifetimes, CoversLifecycle, ClosedByTermination, Latest, RowsOf;
    LifetimesExact(t, START, Forward);
    OrphanRowsExact(t, START, Forward);
  }

  lemma ShuffledRows(t: Tables) returns (earlier: State, later: State)
    requires GapRun(Shuffled, t)
    ensures earlier in t.states && later in t.states && earlier.particle == later.particle
    ensures earlier.sample < later.sample && Later(Forward, earlier.at, later.at)
    ensures !SamplesFollowClock(t, Forward)
  {
    earlier, later := Row(Shuffled, 1), Row(Shuffled, 2);
    RowByIndex(Shuffled, t, earlier);
    RowByIndex(Shuffled, t, later);
    hide GapRun;
    assert Later(Forward, earlier.at, later.at) && !Later(Forward, later.at, earlier.at);
  }

  /** The audit's flag is set on a run in which a particle's sample 1 is ten minutes after its sample 2. */
  lemma ShuffledSamplesAreAccepted() returns (t: Tables, earlier: State, later: State)
    ensures Schema(t) && StatesHaveParticles(t) && RowsInsideLifetimes(t, Forward)
    ensures Audit(t, Forward).Ok? && Valid(Audit(t, Forward).value)
    ensures earlier in t.states && later in t.states && earlier.particle == later.particle
    ensures earlier.sample < later.sample && Later(Forward, earlier.at, later.at)
    ensures !SamplesFollowClock(t, Forward)
  {
    t := GapRunExists(Shuffled);
    Accepted(Shuffled, t);
    ParticlesKnown(Shuffled, t);
    TerminationOrder(Shuffled, t);
    earlier, later := ShuffledRows(t);
    hide Audit, Valid, GapRun, Schema, UniqueSamples, StatesHaveParticles, TerminationsHaveParticles,
         TerminationsAfterBirths, RowsInsideLifetimes, CoversLifecycle, ClosedByTermination, Later, SamplesFollowClock;
    LifetimesExact(t, START, Forward);
    OrphanRowsExact(t, START, Forward);
  }
}
