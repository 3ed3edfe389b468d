/**
 The mirror law of the lifecycle audit: running the clock backwards and asking for the other
 direction changes no verdict.
 */
module LifecycleMirror {
  import opened Wrappers
  import opened RunTables
  import opened Numbering
  import opened Counting
  import opened LifecycleAudit
  import LifecycleGap

  // ------------------------------------------------------------------
  // Mirrored tables
  // ------------------------------------------------------------------

  function Opposite(at: Instant): Instant {
    Instant(-at.seconds, -at.nanosecond)
  }

  function Flip(dir: Direction): Direction {
    match dir case Forward => Backward case Backward => Forward case OtherDirection => OtherDirection
  }

  function MirrorParticle(p: Particle): Particle { p.(birth := Opposite(p.birth)) }
  function MirrorTermination(x: Termination): Termination { x.(at := Opposite(x.at)) }
  function MirrorEvent(e: Event): Event { e.(at := Opposite(e.at)) }
  function MirrorState(s: State): State { s.(at := Opposite(s.at)) }
  function MirrorKey(k: Key): Key { k.(at := Opposite(k.at)) }

  /** The same tables with every instant negated. */
  ghost function Mirror(t: Tables): Tables {
    Tables(set p | p in t.particles :: MirrorParticle(p),
           set x | x in t.terminations :: MirrorTermination(x),
           set e | e in t.events :: MirrorEvent(e),
           seq(|t.states|, i requires 0 <= i < |t.states| => MirrorState(t.states[i])))
  }

  /** Membership in the mirrored tables, read from the original ones. */
  lemma Members(t: Tables)
    ensures forall p :: p in Mirror(t).particles <==> MirrorParticle(p) in t.particles
    ensures forall x :: x in Mirror(t).terminations <==> MirrorTermination(x) in t.terminations
    ensures forall e :: e in Mirror(t).events <==> MirrorEvent(e) in t.events
    ensures forall s :: s in Mirror(t).states <==> MirrorState(s) in t.states
  {
    forall p ensures p in Mirror(t).particles <==> MirrorParticle(p) in t.particles {
      assert MirrorParticle(MirrorParticle(p)) == p;
    }
    forall x ensures x in Mirror(t).terminations <==> MirrorTermination(x) in t.terminations {
      assert MirrorTermination(MirrorTermination(x)) == x;
    }
    forall e ensures e in Mirror(t).events <==> MirrorEvent(e) in t.events {
      assert MirrorEvent(MirrorEvent(e)) == e;
    }
    forall s ensures s in Mirror(t).states <==> MirrorState(s) in t.states {
      if MirrorState(s) in t.states {
        var i :| 0 <= i < |t.states| && t.states[i] == MirrorState(s);
        assert Mirror(t).states[i] == s;
      }
      if s in Mirror(t).states {
        var i :| 0 <= i < |t.states| && Mirror(t).states[i] == s;
        assert t.states[i] == MirrorState(s);
      }
    }
  }

  lemma MirrorTwice(t: Tables)
    ensures Mirror(Mirror(t)) == t
  {
    TwiceInImage(t.particles, MirrorParticle);
    TwiceInImage(t.terminations, MirrorTermination);
    TwiceInImage(t.events, MirrorEvent);
    var m := Mirror(Mirror(t));
    assert m.particles == Image(Image(t.particles, MirrorParticle), MirrorParticle);
    assert m.terminations == Image(Image(t.terminations, MirrorTermination), MirrorTermination);
    assert m.events == Image(Image(t.events, MirrorEvent), MirrorEvent);
    hide Image;
    assert forall i :: 0 <= i < |t.states| ==> m.states[i] == t.states[i];
  }

  /** A set under a map that is its own inverse, twice. */
  lemma TwiceInImage<T(!new)>(s: set<T>, f: T -> T)
    requires forall x :: f(f(x)) == x
    ensures Image(Image(s, f), f) == s
  {
    forall x ensures x in Image(Image(s, f), f) <==> x in s {
      if x in s { assert f(x) in Image(s, f) && f(f(x)) == x; }
    }
  }

  lemma OrderMirrors(dir: Direction, a: Instant, b: Instant)
    requires dir != OtherDirection
    ensures NotBefore(Flip(dir), Opposite(a), Opposite(b)) <==> NotBefore(dir, a, b)
  {
  }

  lemma ScheduleMirrors(first: Instant, dir: Direction, at: Instant)
    requires dir != OtherDirection
    ensures at in Schedule(Opposite(first), Flip(dir)) <==> Opposite(at) in Schedule(first, dir)
    ensures RunEnd(Opposite(first), Flip(dir)) == Opposite(RunEnd(first, dir))
  {
    var s, m := Schedule(first, dir), Schedule(Opposite(first), Flip(dir));
    assert |s| == |m| && forall i :: 0 <= i < |s| ==> m[i] == Opposite(s[i]) && s[i] == Opposite(m[i]);
    if at in m {
      var i :| 0 <= i < |m| && m[i] == at;
      assert s[i] == Opposite(at);
    }
    if Opposite(at) in s {
      var i :| 0 <= i < |s| && s[i] == Opposite(at);
      assert m[i] == at;
    }
  }

  // ------------------------------------------------------------------
  // Clause by clause
  // ------------------------------------------------------------------

  lemma SchemaMirrors(t: Tables)
    requires Schema(t) && UniqueSamples(t)
    ensures Schema(Mirror(t)) && UniqueSamples(Mirror(t))
  {
    Members(t);
    var m := Mirror(t);
    forall s | s in m.states ensures exists e :: e in m.events && e.sequence == s.event {
      var e :| e in t.events && e.sequence == MirrorState(s).event;
      assert MirrorEvent(MirrorEvent(e)) == e && MirrorEvent(e) in m.events;
    }
  }

  lemma ExpectedMirrors(t: Tables, first: Instant, dir: Direction, k: Key)
    requires dir != OtherDirection && k in ExpectedKeys(t, first, dir)
    ensures MirrorKey(k) in ExpectedKeys(Mirror(t), Opposite(first), Flip(dir))
  {
    Members(t);
    var m := Mirror(t);
    if k in ExpectedSchedule(t, first, dir) {
      var p, at :| p in t.particles && at in Schedule(first, dir) && NotBefore(dir, at, p.birth)
        && (forall x :: x in t.terminations && x.id == p.id ==> NotBefore(dir, x.at, at)) && k == Key(p.id, at);
      ScheduleMirrors(first, dir, Opposite(at));
      assert Opposite(Opposite(at)) == at;
      OrderMirrors(dir, at, p.birth);
      forall x | x in m.terminations && x.id == p.id ensures NotBefore(Flip(dir), x.at, Opposite(at)) {
        OrderMirrors(dir, MirrorTermination(x).at, at);
      }
      assert MirrorParticle(MirrorParticle(p)) == p && MirrorParticle(p) in m.particles;
      assert MirrorKey(k) in ExpectedSchedule(m, Opposite(first), Flip(dir));
    } else if k in BirthKeys(t) {
      var p :| p in t.particles && k == Key(p.id, p.birth);
      assert MirrorParticle(MirrorParticle(p)) == p && MirrorParticle(p) in m.particles;
      assert MirrorKey(k) in BirthKeys(m);
    } else {
      var x :| x in t.terminations && k == Key(x.id, x.at);
      assert MirrorTermination(MirrorTermination(x)) == x && MirrorTermination(x) in m.terminations;
      assert MirrorKey(k) in TerminationKeys(m);
    }
  }

  lemma KeysMirror(t: Tables)
    ensures |Keys(Mirror(t))| == |Keys(t)|
    ensures forall i :: 0 <= i < |Keys(t)| ==> Keys(Mirror(t))[i] == MirrorKey(Keys(t)[i])
    ensures forall k :: k in Keys(Mirror(t)) <==> MirrorKey(k) in Keys(t)
  {
    var keys, mirrored := Keys(t), Keys(Mirror(t));
    forall k ensures k in mirrored <==> MirrorKey(k) in keys {
      if k in mirrored {
        var i :| 0 <= i < |mirrored| && mirrored[i] == k;
        assert keys[i] == MirrorKey(k);
      }
      if MirrorKey(k) in keys {
        var i :| 0 <= i < |keys| && keys[i] == MirrorKey(k);
        assert mirrored[i] == k;
      }
    }
  }

  lemma KeysStayDistinct(t: Tables, expected: set<Key>)
    requires multiset(Keys(t)) == multiset(expected)
    ensures forall i, j :: 0 <= i < j < |Keys(Mirror(t))| ==> Keys(Mirror(t))[i] != Keys(Mirror(t))[j]
  {
    KeysMirror(t);
    hide Mirror, Keys;
    var mirrored := Keys(Mirror(t));
    forall i, j | 0 <= i < j < |mirrored| ensures mirrored[i] != mirrored[j] {
      EnumerationDistinct(Keys(t), expected, i, j);
      assert MirrorKey(mirrored[i]) == Keys(t)[i] && MirrorKey(mirrored[j]) == Keys(t)[j];
    }
  }

  lemma KeysAreExpected(t: Tables, first: Instant, dir: Direction, k: Key)
    requires CoversLifecycle(t, first, dir)
    ensures k in Keys(t) <==> k in ExpectedKeys(t, first, dir)
  {
    assert k in multiset(Keys(t)) <==> k in multiset(ExpectedKeys(t, first, dir));
  }

  lemma TwiceIsOnce(at: Instant, dir: Direction, k: Key)
    ensures Opposite(Opposite(at)) == at && Flip(Flip(dir)) == dir && MirrorKey(MirrorKey(k)) == k
    ensures dir != OtherDirection ==> Flip(dir) != OtherDirection
  {
  }

  lemma KeyMirrors(t: Tables, k: Key)
    ensures k in Keys(Mirror(t)) <==> MirrorKey(k) in Keys(t)
  {
    KeysMirror(t);
  }

  lemma MirroredKeyExpected(t: Tables, first: Instant, dir: Direction, k: Key)
    requires dir != OtherDirection && CoversLifecycle(t, first, dir)
    ensures k in Keys(Mirror(t)) <==> k in ExpectedKeys(Mirror(t), Opposite(first), Flip(dir))
  {
    hide *;
    KeyMirrors(t, k);
    KeysAreExpected(t, first, dir, MirrorKey(k));
    MirrorTwice(t);
    TwiceIsOnce(first, dir, k);
    if MirrorKey(k) in ExpectedKeys(t, first, dir) { ExpectedMirrors(t, first, dir, MirrorKey(k)); }
    if k in ExpectedKeys(Mirror(t), Opposite(first), Flip(dir)) {
      ExpectedMirrors(Mirror(t), Opposite(first), Flip(dir), k);
    }
  }

  lemma CoverageMirrors(t: Tables, first: Instant, dir: Direction)
    requires dir != OtherDirection && CoversLifecycle(t, first, dir)
    ensures CoversLifecycle(Mirror(t), Opposite(first), Flip(dir))
  {
    KeysStayDistinct(t, ExpectedKeys(t, first, dir));
    var keys, expected := Keys(Mirror(t)), ExpectedKeys(Mirror(t), Opposite(first), Flip(dir));
    hide Mirror, Keys, ExpectedKeys, Flip;
    forall k ensures k in keys <==> k in expected { MirroredKeyExpected(t, first, dir, k); }
    DistinctEnumeration(keys, expected);
  }

  lemma RowsMirror(t: Tables, id: int)
    ensures forall s :: s in RowsOf(Mirror(t), id) <==> MirrorState(s) in RowsOf(t, id)
    ensures SampleNumbers(RowsOf(Mirror(t), id)) == SampleNumbers(RowsOf(t, id))
    ensures |RowsOf(Mirror(t), id)| == |RowsOf(t, id)|
  {
    Members(t);
    var rows, mirrored := RowsOf(t, id), RowsOf(Mirror(t), id);
    assert forall s: State :: MirrorState(MirrorState(s)) == s;
    forall k ensures k in SampleNumbers(mirrored) <==> k in SampleNumbers(rows) {
      if k in SampleNumbers(mirrored) {
        var s :| s in mirrored && s.sample == k;
        assert MirrorState(s) in rows;
      }
      if k in SampleNumbers(rows) {
        var s :| s in rows && s.sample == k;
        assert MirrorState(s) in mirrored;
      }
    }
    forall x, y | MirrorState(x) == MirrorState(y) ensures x == y { assert MirrorState(MirrorState(x)) == x; }
    ImageSize(rows, MirrorState);
    forall s ensures s in Image(rows, MirrorState) <==> s in mirrored {
      if s in mirrored { assert MirrorState(MirrorState(s)) == s; }
    }
    assert Image(rows, MirrorState) == mirrored;
  }

  lemma LatestMirrors(t: Tables, id: int, s: State)
    requires Latest(RowsOf(t, id), s)
    ensures Latest(RowsOf(Mirror(t), id), MirrorState(s))
  {
    RowsMirror(t, id);
    assert MirrorState(MirrorState(s)) == s;
  }

  lemma ParticlesMirror(t: Tables)
    requires SamplesNumbered(t) && BornAtSampleZero(t)
    ensures SamplesNumbered(Mirror(t)) && BornAtSampleZero(Mirror(t))
  {
    Members(t);
    var m := Mirror(t);
    forall p | p in m.particles
      ensures RowsOf(m, p.id) != {} && SampleNumbers(RowsOf(m, p.id)) == Range(|RowsOf(m, p.id)|)
      ensures exists s :: s in RowsOf(m, p.id) && s.sample == 0 && s.at == p.birth
    {
      var q := MirrorParticle(p);
      RowsMirror(t, p.id);
      var s :| s in RowsOf(t, q.id) && s.sample == 0 && s.at == q.birth;
      assert MirrorState(MirrorState(s)) == s && MirrorState(s) in RowsOf(m, p.id);
    }
  }

  lemma TerminationsMirror(t: Tables, id: int)
    ensures HasTermination(Mirror(t), id) <==> HasTermination(t, id)
  {
    Members(t);
    if x :| x in t.terminations && x.id == id {
      assert MirrorTermination(MirrorTermination(x)) == x && MirrorTermination(x) in Mirror(t).terminations;
    }
  }

  lemma ClosingsMirror(t: Tables)
    requires ClosedByTermination(t)
    ensures ClosedByTermination(Mirror(t))
  {
    Members(t);
    var m := Mirror(t);
    forall x | x in m.terminations ensures Closed(m, x) {
      var y := MirrorTermination(x);
      assert Closed(t, y);
      var s :| Latest(RowsOf(t, y.id), s) && s.at == y.at && s.status == Terminated
        && (s.reason == None || s.reason == Some(y.reason));
      LatestMirrors(t, y.id, s);
      assert MirrorState(s).at == x.at;
    }
  }

  lemma EndsMirror(t: Tables, end: Instant)
    requires ClosedByTermination(t) && AliveAtRunEnd(t, end)
    ensures ClosedByTermination(Mirror(t)) && AliveAtRunEnd(Mirror(t), Opposite(end))
  {
    Members(t);
    ClosingsMirror(t);
    var m := Mirror(t);
    hide Mirror, Latest, HasTermination, ClosedByTermination;
    forall p | p in m.particles && !HasTermination(m, p.id) ensures EndsAlive(m, p, Opposite(end)) {
      var q := MirrorParticle(p);
      TerminationsMirror(t, q.id);
      assert EndsAlive(t, q, end);
      var s :| Latest(RowsOf(t, q.id), s) && s.at == end && s.status == Alive;
      LatestMirrors(t, q.id, s);
    }
  }

  lemma EventsMirror(t: Tables, first: Instant, dir: Direction)
    requires dir != OtherDirection
    requires OneEventPerScheduleInstant(t, Schedule(first, dir)) && ExtraEventsAreLifecycle(t, Schedule(first, dir))
    ensures OneEventPerScheduleInstant(Mirror(t), Schedule(Opposite(first), Flip(dir)))
    ensures ExtraEventsAreLifecycle(Mirror(t), Schedule(Opposite(first), Flip(dir)))
  {
    Members(t);
    var m, schedule := Mirror(t), Schedule(Opposite(first), Flip(dir));
    forall at | at in schedule
      ensures exists e :: e in m.events && e.at == at && forall f :: f in m.events && f.at == at ==> f == e
    {
      ScheduleMirrors(first, dir, at);
      var e :| e in t.events && e.at == Opposite(at) && forall f :: f in t.events && f.at == Opposite(at) ==> f == e;
      var d := MirrorEvent(e);
      assert MirrorEvent(d) == e && d in m.events;
      forall f | f in m.events && f.at == at ensures f == d {
        assert MirrorEvent(f) == e && MirrorEvent(MirrorEvent(f)) == f;
      }
    }
    forall e | e in m.events && e.at !in schedule ensures e.kind == BirthEvent || e.kind == TerminationEvent {
      ScheduleMirrors(first, dir, e.at);
      assert MirrorEvent(e) in t.events;
    }
  }

  lemma AdvanceMirrors(t: Tables)
    requires EventsAdvance(t)
    ensures EventsAdvance(Mirror(t))
  {
    Members(t);
    hide Mirror;
    forall s, r | s in Mirror(t).states && r in Mirror(t).states && s.particle == r.particle && s.sample < r.sample
      ensures s.event < r.event
    {
      assert MirrorState(s) in t.states && MirrorState(r) in t.states;
    }
  }

  lemma EventTimesMirror(t: Tables)
    requires RowsAtTheirEvent(t)
    ensures RowsAtTheirEvent(Mirror(t))
  {
    Members(t);
    hide Mirror;
    forall s, e | s in Mirror(t).states && e in Mirror(t).events && e.sequence == s.event ensures s.at == e.at {
      assert MirrorState(s) in t.states && MirrorEvent(e) in t.events;
      assert Opposite(Opposite(s.at)) == s.at && Opposite(Opposite(e.at)) == e.at;
    }
  }

  lemma EventUseMirrors(t: Tables)
    requires EveryEventUsed(t)
    ensures EveryEventUsed(Mirror(t))
  {
    Members(t);
    hide Mirror;
    forall e | e in Mirror(t).events ensures exists s :: s in Mirror(t).states && s.event == e.sequence {
      var s :| s in t.states && s.event == MirrorEvent(e).sequence;
      assert MirrorState(MirrorState(s)) == s && MirrorState(s) in Mirror(t).states;
    }
  }

  lemma EventCountMirrors(t: Tables)
    requires EventsNumbered(t)
    ensures EventsNumbered(Mirror(t))
  {
    var m := Mirror(t);
    forall x, y | MirrorEvent(x) == MirrorEvent(y) ensures x == y { assert MirrorEvent(MirrorEvent(x)) == x; }
    ImageSize(t.events, MirrorEvent);
    assert Image(t.events, MirrorEvent) == m.events;
    forall k ensures k in EventNumbers(m) <==> k in EventNumbers(t) {
      if k in EventNumbers(t) {
        var e :| e in t.events && e.sequence == k;
        assert MirrorEvent(e) in m.events;
      }
    }
    assert EventNumbers(m) == EventNumbers(t);
    var e :| e in t.events;
    assert MirrorEvent(e) in m.events;
  }

  lemma FaithfulMirrors(t: Tables, first: Instant, dir: Direction)
    requires dir != OtherDirection && FaithfulRun(t, first, dir)
    ensures FaithfulRun(Mirror(t), Opposite(first), Flip(dir))
  {
    hide CoversLifecycle, SamplesNumbered, EventsAdvance, BornAtSampleZero, ClosedByTermination, AliveAtRunEnd,
         OneEventPerScheduleInstant, ExtraEventsAreLifecycle, RowsAtTheirEvent, EveryEventUsed, EventsNumbered,
         Schedule, RunEnd, Mirror;
    CoverageMirrors(t, first, dir);
    ParticlesMirror(t);
    EndsMirror(t, RunEnd(first, dir));
    ScheduleMirrors(first, dir, first);
    EventsMirror(t, first, dir);
    AdvanceMirrors(t);
    EventTimesMirror(t);
    EventUseMirrors(t);
    EventCountMirrors(t);
  }

  /** Some event numbered 0 starts a faithful run in the direction. */
  ghost predicate StartsFaithfully(t: Tables, dir: Direction) {
    exists e :: e in t.events && e.sequence == 0 && FaithfulRun(t, e.at, dir)
  }

  lemma StartMirrors(t: Tables, dir: Direction)
    requires dir != OtherDirection && StartsFaithfully(t, dir)
    ensures StartsFaithfully(Mirror(t), Flip(dir))
  {
    Members(t);
    hide FaithfulRun;
    var e :| e in t.events && e.sequence == 0 && FaithfulRun(t, e.at, dir);
    FaithfulMirrors(t, e.at, dir);
    assert MirrorEvent(MirrorEvent(e)) == e && MirrorEvent(e) in Mirror(t).events;
  }

  lemma AcceptanceMirrors(t: Tables, dir: Direction)
    requires Schema(t) && Audit(t, dir).Ok? && Valid(Audit(t, dir).value)
    ensures Schema(Mirror(t)) && Audit(Mirror(t), Flip(dir)).Ok? && Valid(Audit(Mirror(t), Flip(dir)).value)
  {
    AuditIsExact(t, dir);
    hide Schema, UniqueSamples, Audit, Valid, FaithfulRun, Mirror;
    SchemaMirrors(t);
    assert StartsFaithfully(t, dir);
    StartMirrors(t, dir);
    AuditIsExact(Mirror(t), Flip(dir));
  }

  /**
   The mirror law: the audit accepts a run in one direction exactly when it accepts the run with all
   instants negated in the other direction.
   */
  lemma AuditMirrors(t: Tables, dir: Direction)
    requires Schema(t) && Schema(Mirror(t))
    ensures Audit(t, dir).Ok? && Valid(Audit(t, dir).value) <==>
            Audit(Mirror(t), Flip(dir)).Ok? && Valid(Audit(Mirror(t), Flip(dir)).value)
  {
    hide Schema, Audit, Valid, Mirror;
    if Audit(t, dir).Ok? && Valid(Audit(t, dir).value) { AcceptanceMirrors(t, dir); }
    if Audit(Mirror(t), Flip(dir)).Ok? && Valid(Audit(Mirror(t), Flip(dir)).value) {
      AcceptanceMirrors(Mirror(t), Flip(dir));
      MirrorTwice(t);
      assert Flip(Flip(dir)) == dir;
    }
  }

  lemma MirroredStart(f: Tables) returns (e: Event)
    requires LifecycleGap.GapRun(LifecycleGap.NullReason, f)
    ensures e in Mirror(f).events && e.sequence == 0 && e.at == Instant(0, 0)
  {
    hide *;
    OppositeStart();
    var d := LifecycleGap.FirstEvent(LifecycleGap.NullReason, f);
    e := MirroredEvent(f, d);
  }

  lemma OppositeStart()
    ensures Opposite(LifecycleGap.START) == Instant(0, 0)
  {
  }

  lemma MirroredEvent(t: Tables, d: Event) returns (e: Event)
    requires d in t.events
    ensures e in Mirror(t).events && e.sequence == d.sequence && e.at == Opposite(d.at)
  {
    e := MirrorEvent(d);
  }

  lemma MirroredEnd(f: Tables) returns (s: State)
    requires LifecycleGap.GapRun(LifecycleGap.NullReason, f)
    ensures s in Mirror(f).states && s.status == Alive && s.at == Instant(-3600, 0)
  {
    LifecycleGap.RowByIndex(LifecycleGap.NullReason, f, LifecycleGap.Row(LifecycleGap.NullReason, 6));
    var r := LifecycleGap.Row(LifecycleGap.NullReason, 6);
    assert r in f.states && r.at == Instant(3600, 0) && r.status == Alive;
    hide LifecycleGap.GapRun;
    Members(f);
    hide Mirror;
    s := MirrorState(r);
    assert MirrorState(s) == r;
  }

  /** A backward run that the audit accepts: its output goes from 0 s down to -3600 s. */
  lemma BackwardRunIsAccepted() returns (t: Tables)
    ensures Schema(t) && Audit(t, Backward).Ok? && Valid(Audit(t, Backward).value)
    ensures exists e, s :: e in t.events && e.sequence == 0 && e.at == Instant(0, 0)
                           && s in t.states && s.status == Alive && s.at == Instant(-3600, 0)
  {
    var f := LifecycleGap.GapRunExists(LifecycleGap.NullReason);
    LifecycleGap.Accepted(LifecycleGap.NullReason, f);
    t := Mirror(f);
    var e := MirroredStart(f);
    var s := MirroredEnd(f);
    hide *;
    AcceptanceMirrors(f, Forward);
  }
}
