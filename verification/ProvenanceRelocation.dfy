/**
 What the path-normalized digests see: not the data root, not the exact hashes, not the order of
 the bundle; and, with an injective hash, everything else.
 */
module ProvenanceRelocation {
  import opened Wrappers
  import opened Sorting
  import opened Separated
  import opened Mapping
  import opened ProvenanceDigest

  // ------------------------------------------------------------------
  // The fold
  // ------------------------------------------------------------------

  function ShaOf(item: Item): Digest { item.sha }
  function DigestIn(item: Item): Digest { if item.digest.Some? then item.digest.value else "" }

  ghost predicate Foldable(items: seq<Item>) {
    (forall i :: 0 <= i < |items| ==> items[i].digest.Some?) && Distinct(Map(ShaOf, items))
  }

  /** The dictionary and the list built from the entries. */
  ghost predicate Built(items: seq<Item>, seen: Seen) {
    && seen.digests == Map(DigestIn, items)
    && (forall i :: 0 <= i < |items| ==>
          items[i].sha in seen.digestOf && seen.digestOf[items[i].sha] == DigestIn(items[i]))
    && (forall x :: x in seen.digestOf ==> x in Map(ShaOf, items))
  }

  lemma DistinctLast<T(!new)>(s: seq<T>, x: T)
    ensures Distinct(s + [x]) <==> Distinct(s) && x !in s
  {
    var all := s + [x];
    assert multiset(all) == multiset(s) + multiset{x};
    if Distinct(all) {
      assert multiset(all)[x] == multiset(s)[x] + 1;
      assert forall y :: multiset(s)[y] <= multiset(all)[y];
    }
  }

  lemma FoldableStep(before: seq<Item>, item: Item)
    ensures Foldable(before + [item]) <==> Foldable(before) && item.digest.Some? && item.sha !in Map(ShaOf, before)
  {
    var items := before + [item];
    assert Map(ShaOf, items) == Map(ShaOf, before) + [item.sha];
    DistinctLast(Map(ShaOf, before), item.sha);
    if Foldable(items) {
      assert forall i :: 0 <= i < |before| ==> items[i] == before[i];
      assert items[|before|] == item;
    }
  }

  lemma BuiltStep(before: seq<Item>, seen: Seen, item: Item)
    requires Built(before, seen)
    ensures item.sha in seen.digestOf <==> item.sha in Map(ShaOf, before)
    ensures item.sha !in seen.digestOf ==>
              Built(before + [item], Seen(seen.digestOf[item.sha := DigestIn(item)], seen.digests + [DigestIn(item)]))
  {
    var items := before + [item];
    if item.sha in Map(ShaOf, before) {
      var i :| 0 <= i < |before| && Map(ShaOf, before)[i] == item.sha;
      assert before[i].sha == item.sha;
    }
    assert Map(ShaOf, items) == Map(ShaOf, before) + [item.sha];
    assert Map(DigestIn, items) == Map(DigestIn, before) + [DigestIn(item)];
    forall i | 0 <= i < |items| && item.sha !in seen.digestOf
      ensures items[i].sha == item.sha <==> i == |before|
    {
      if i < |before| { assert items[i] == before[i]; }
    }
  }

  /** The loop succeeds exactly on resolvable entries with pairwise different exact hashes. */
  lemma {:induction false} FoldExact(items: seq<Item>, unresolved: DigestError, duplicate: DigestError)
    ensures var r := Fold(items, unresolved, duplicate);
            (r.Ok? <==> Foldable(items)) && (r.Ok? ==> Built(items, r.value))
  {
    if items == [] {
      assert Map(ShaOf, items) == [];
    } else {
      hide Foldable, Built;
      var before, item := items[..|items| - 1], items[|items| - 1];
      FoldExact(before, unresolved, duplicate);
      assert items == before + [item];
      FoldableStep(before, item);
      if Fold(before, unresolved, duplicate).Ok? {
        BuiltStep(before, Fold(before, unresolved, duplicate).value, item);
      }
    }
  }

  ghost function Relabel(f: Digest -> Digest): Item -> Item {
    (item: Item) => item.(sha := f(item.sha))
  }

  lemma {:induction false} InjectiveKeepsDistinct<S(!new), T(!new)>(f: S -> T, s: seq<S>)
    requires Injective(f) && Distinct(s)
    ensures Distinct(Map(f, s))
  {
    DistinctIndices(s);
    DistinctIndices(Map(f, s));
  }

  lemma InMap<S, T>(f: S -> T, a: seq<S>, b: seq<T>, y: T) returns (i: nat)
    requires multiset(b) == multiset(Map(f, a)) && y in b
    ensures i < |a| && y == f(a[i])
  {
    assert y in multiset(Map(f, a));
    i :| 0 <= i < |Map(f, a)| && Map(f, a)[i] == y;
  }

  lemma LookupMoved(items: seq<Item>, moved: seq<Item>, f: Digest -> Digest, before: Seen, after: Seen, x: Digest)
    requires multiset(moved) == multiset(Map(Relabel(f), items)) && Built(items, before) && Built(moved, after)
    requires x in before.digestOf
    ensures f(x) in after.digestOf && after.digestOf[f(x)] == before.digestOf[x]
  {
    var i :| 0 <= i < |items| && Map(ShaOf, items)[i] == x;
    var relabelled := Map(Relabel(f), items);
    assert relabelled[i] in multiset(moved);
    var j :| 0 <= j < |moved| && moved[j] == relabelled[i];
  }

  lemma FoldableMoved(items: seq<Item>, moved: seq<Item>, f: Digest -> Digest)
    requires Injective(f) && multiset(moved) == multiset(Map(Relabel(f), items)) && Foldable(items)
    ensures Foldable(moved) && multiset(Map(DigestIn, moved)) == multiset(Map(DigestIn, items))
  {
    var relabelled := Map(Relabel(f), items);
    MapForgetsOrder(ShaOf, moved, relabelled);
    MapForgetsOrder(DigestIn, moved, relabelled);
    assert Map(ShaOf, relabelled) == Map(f, Map(ShaOf, items));
    assert Map(DigestIn, relabelled) == Map(DigestIn, items);
    InjectiveKeepsDistinct(f, Map(ShaOf, items));
    forall i | 0 <= i < |moved| ensures moved[i].digest.Some? {
      var j := InMap(Relabel(f), items, moved, moved[i]);
    }
  }

  /** Relabelling exact hashes injectively and reordering changes neither success nor any normalized hash. */
  lemma FoldMoved(items: seq<Item>, moved: seq<Item>, f: Digest -> Digest, u: DigestError, d: DigestError)
    requires Injective(f) && multiset(moved) == multiset(Map(Relabel(f), items)) && Fold(items, u, d).Ok?
    ensures var before, after := Fold(items, u, d).value, Fold(moved, u, d);
            && after.Ok? && multiset(after.value.digests) == multiset(before.digests)
            && forall x :: x in before.digestOf ==>
                 f(x) in after.value.digestOf && after.value.digestOf[f(x)] == before.digestOf[x]
  {
    FoldExact(items, u, d);
    FoldExact(moved, u, d);
    FoldableMoved(items, moved, f);
    var before, after := Fold(items, u, d).value, Fold(moved, u, d).value;
    forall x | x in before.digestOf ensures f(x) in after.digestOf && after.digestOf[f(x)] == before.digestOf[x] {
      LookupMoved(items, moved, f, before, after, x);
    }
  }

  // ------------------------------------------------------------------
  // Relocation
  // ------------------------------------------------------------------

  /** A new data root and a renaming of the exact hashes. */
  datatype Move = Move(fromRoot: string, toRoot: string, record: Digest -> Digest, fieldSet: Digest -> Digest)

  ghost predicate ValidMove(m: Move) {
    && m.fromRoot != [] && m.fromRoot[0] == '/' && m.toRoot != [] && m.toRoot[0] == '/'
    && Injective(m.record) && Injective(m.fieldSet)
  }

  function MoveSource(source: string, m: Move): string {
    if Prefix(m.fromRoot) <= source then Prefix(m.toRoot) + source[|Prefix(m.fromRoot)|..] else source
  }

  function MoveRecord(e: RecordEntry, m: Move): RecordEntry {
    RecordEntry(m.record(e.sha),
                e.record.(sources := Map((s: string) => MoveSource(s, m), e.record.sources)))
  }

  function MoveFieldSet(e: FieldSetEntry, m: Move): FieldSetEntry {
    FieldSetEntry(m.fieldSet(e.sha),
                  map name | name in e.fields ::
                    if e.fields[name].Some? then Some(m.record(e.fields[name].value)) else None)
  }

  function MoveSample(s: Sample, m: Move): Sample {
    s.(fieldSet := m.fieldSet(s.fieldSet))
  }

  /** b2 is b with the data moved, the exact hashes renamed with their references, and all lists reordered. */
  ghost predicate IsMoved(b: Bundle, b2: Bundle, m: Move) {
    && multiset(b2.records) == multiset(Map((e: RecordEntry) => MoveRecord(e, m), b.records))
    && multiset(b2.fieldSets) == multiset(Map((e: FieldSetEntry) => MoveFieldSet(e, m), b.fieldSets))
    && multiset(b2.samples) == multiset(Map((s: Sample) => MoveSample(s, m), b.samples))
  }

  ghost predicate DistinctSamples(b: Bundle) {
    forall i, j :: 0 <= i < j < |b.samples| ==>
      b.samples[i].particle != b.samples[j].particle || b.samples[i].sequence != b.samples[j].sequence
  }

  lemma PrefixIsAbsolute(root: string)
    requires root != [] && root[0] == '/'
    ensures Prefix(root)[0] == '/'
  {
    StripKeepsHead(root);
  }

  lemma {:induction false} StripKeepsHead(path: string)
    ensures StripSlashes(path) <= path
  {
    if path != [] && path[|path| - 1] == '/' {
      StripKeepsHead(path[..|path| - 1]);
    }
  }

  lemma SourceMoves(source: string, m: Move)
    requires ValidMove(m) && NormalizeSource(source, Prefix(m.fromRoot)).Some?
    ensures NormalizeSource(MoveSource(source, m), Prefix(m.toRoot)) == NormalizeSource(source, Prefix(m.fromRoot))
  {
    PrefixIsAbsolute(m.fromRoot);
    PrefixIsAbsolute(m.toRoot);
    var from, to := Prefix(m.fromRoot), Prefix(m.toRoot);
    if from <= source {
      assert (to + source[|from|..])[|to|..] == source[|from|..];
    }
  }

  lemma RecordMoves(e: RecordEntry, m: Move, h: Hashes)
    requires ValidMove(m) && RecordItem(e, Prefix(m.fromRoot), h).digest.Some?
    ensures RecordItem(MoveRecord(e, m), Prefix(m.toRoot), h)
            == RecordItem(e, Prefix(m.fromRoot), h).(sha := m.record(e.sha))
  {
    var e2 := MoveRecord(e, m);
    forall i | 0 <= i < |e.record.sources|
      ensures NormalizeSource(e2.record.sources[i], Prefix(m.toRoot))
              == NormalizeSource(e.record.sources[i], Prefix(m.fromRoot))
    {
      SourceMoves(e.record.sources[i], m);
    }
    assert Normalize(e2.record, Prefix(m.toRoot)).sources == Normalize(e.record, Prefix(m.fromRoot)).sources;
  }

  ghost predicate Renamed(before: map<Digest, Digest>, after: map<Digest, Digest>, f: Digest -> Digest) {
    forall x :: x in before ==> f(x) in after && after[f(x)] == before[x]
  }

  lemma FieldSetMoves(e: FieldSetEntry, m: Move, h: Hashes, records: map<Digest, Digest>, records2: map<Digest, Digest>)
    requires Renamed(records, records2, m.record) && FieldSetItem(e, records, h).digest.Some?
    ensures FieldSetItem(MoveFieldSet(e, m), records2, h) == FieldSetItem(e, records, h).(sha := m.fieldSet(e.sha))
  {
    assert ResolveFields(MoveFieldSet(e, m).fields, records2) == ResolveFields(e.fields, records);
  }

  lemma RecordItemsMove(b: Bundle, b2: Bundle, m: Move, h: Hashes)
    requires ValidMove(m) && IsMoved(b, b2, m)
    requires Fold(RecordItems(b, Prefix(m.fromRoot), h), EscapesRoot, DuplicateRecord).Ok?
    ensures multiset(RecordItems(b2, Prefix(m.toRoot), h))
            == multiset(Map(Relabel(m.record), RecordItems(b, Prefix(m.fromRoot), h)))
  {
    var move := (e: RecordEntry) => MoveRecord(e, m);
    var item := (e: RecordEntry) => RecordItem(e, Prefix(m.toRoot), h);
    var items := RecordItems(b, Prefix(m.fromRoot), h);
    FoldExact(items, EscapesRoot, DuplicateRecord);
    MapForgetsOrder(item, b2.records, Map(move, b.records));
    forall i | 0 <= i < |b.records|
      ensures item(move(b.records[i])) == Relabel(m.record)(items[i])
    {
      assert items[i].digest.Some?;
      RecordMoves(b.records[i], m, h);
    }
    assert Map(item, Map(move, b.records)) == Map(Relabel(m.record), items);
    assert RecordItems(b2, Prefix(m.toRoot), h) == Map(item, b2.records);
  }

  lemma FieldSetItemsMove(b: Bundle, b2: Bundle, m: Move, h: Hashes, records: map<Digest, Digest>,
                          records2: map<Digest, Digest>)
    requires IsMoved(b, b2, m) && Renamed(records, records2, m.record)
    requires Fold(FieldSetItems(b, records, h), MissingRecord, DuplicateFieldSet).Ok?
    ensures multiset(FieldSetItems(b2, records2, h)) == multiset(Map(Relabel(m.fieldSet), FieldSetItems(b, records, h)))
  {
    var move := (e: FieldSetEntry) => MoveFieldSet(e, m);
    var item := (e: FieldSetEntry) => FieldSetItem(e, records2, h);
    var items := FieldSetItems(b, records, h);
    FoldExact(items, MissingRecord, DuplicateFieldSet);
    MapForgetsOrder(item, b2.fieldSets, Map(move, b.fieldSets));
    forall i | 0 <= i < |b.fieldSets|
      ensures item(move(b.fieldSets[i])) == Relabel(m.fieldSet)(items[i])
    {
      assert items[i].digest.Some?;
      FieldSetMoves(b.fieldSets[i], m, h, records, records2);
    }
    assert Map(item, Map(move, b.fieldSets)) == Map(Relabel(m.fieldSet), items);
    assert FieldSetItems(b2, records2, h) == Map(item, b2.fieldSets);
  }

  predicate AssignmentLe(a: Assignment, b: Assignment) {
    a.particle < b.particle || (a.particle == b.particle && a.sequence <= b.sequence)
  }

  /** The sorted sample assignments, from the bundle's own order. */
  lemma SamplesSorted(b: Bundle, fieldSets: map<Digest, Digest>)
    ensures var assign := (s: Sample) => Assign(s, fieldSets);
            var sorted := Map(assign, Sort(b.samples, SampleLe));
            Sorted(sorted, AssignmentLe) && multiset(sorted) == multiset(Map(assign, b.samples))
  {
    SampleOrder();
    SortSorts(b.samples, SampleLe);
    MapForgetsOrder((s: Sample) => Assign(s, fieldSets), Sort(b.samples, SampleLe), b.samples);
  }

  lemma AssignmentsMove(b: Bundle, b2: Bundle, m: Move, fieldSets: map<Digest, Digest>, fieldSets2: map<Digest, Digest>)
    requires IsMoved(b, b2, m) && Renamed(fieldSets, fieldSets2, m.fieldSet)
    requires forall i :: 0 <= i < |b.samples| ==> b.samples[i].fieldSet in fieldSets
    ensures forall i :: 0 <= i < |b2.samples| ==> b2.samples[i].fieldSet in fieldSets2
    ensures multiset(Map((s: Sample) => Assign(s, fieldSets2), b2.samples))
            == multiset(Map((s: Sample) => Assign(s, fieldSets), b.samples))
  {
    var move := (s: Sample) => MoveSample(s, m);
    var assign, assign2 := (s: Sample) => Assign(s, fieldSets), (s: Sample) => Assign(s, fieldSets2);
    forall i | 0 <= i < |b2.samples| ensures b2.samples[i].fieldSet in fieldSets2 {
      var j := InMap(move, b.samples, b2.samples, b2.samples[i]);
    }
    MapForgetsOrder(assign2, b2.samples, Map(move, b.samples));
    assert Map(assign2, Map(move, b.samples)) == Map(assign, b.samples);
  }

  lemma AssignmentsNoTies(b: Bundle, fieldSets: map<Digest, Digest>, s: seq<Assignment>)
    requires DistinctSamples(b) && multiset(s) == multiset(Map((s: Sample) => Assign(s, fieldSets), b.samples))
    ensures NoTies(s, AssignmentLe)
  {
    var plain := Map((s: Sample) => Assign(s, fieldSets), b.samples);
    forall x, y | x in s && y in s && AssignmentLe(x, y) && AssignmentLe(y, x) ensures x == y {
      assert x in multiset(plain) && y in multiset(plain);
      var i :| 0 <= i < |plain| && plain[i] == x;
      var j :| 0 <= j < |plain| && plain[j] == y;
      assert i == j;
    }
  }

  lemma SamplesMove(b: Bundle, b2: Bundle, m: Move, fieldSets: map<Digest, Digest>, fieldSets2: map<Digest, Digest>)
    requires IsMoved(b, b2, m) && Renamed(fieldSets, fieldSets2, m.fieldSet) && DistinctSamples(b)
    requires forall i :: 0 <= i < |b.samples| ==> b.samples[i].fieldSet in fieldSets
    ensures forall i :: 0 <= i < |b2.samples| ==> b2.samples[i].fieldSet in fieldSets2
    ensures Map((s: Sample) => Assign(s, fieldSets2), Sort(b2.samples, SampleLe))
            == Map((s: Sample) => Assign(s, fieldSets), Sort(b.samples, SampleLe))
  {
    AssignmentsMove(b, b2, m, fieldSets, fieldSets2);
    SamplesSorted(b, fieldSets);
    SamplesSorted(b2, fieldSets2);
    hide Sort, IsMoved, Renamed, DistinctSamples, NoTies, Sorted, Assign;
    var one := Map((s: Sample) => Assign(s, fieldSets), Sort(b.samples, SampleLe));
    var two := Map((s: Sample) => Assign(s, fieldSets2), Sort(b2.samples, SampleLe));
    AssignmentsNoTies(b, fieldSets, one);
    AssignmentOrder();
    SortedUnique(one, two, AssignmentLe);
  }

  lemma AssignmentOrder()
    ensures TotalPreorder(AssignmentLe)
  {
  }

  /**
   Moving the data root, renaming exact hashes injectively together with their references, and
   reordering records, field sets and samples leave both digests unchanged.
   */
  lemma RelocationInvariant(b: Bundle, b2: Bundle, m: Move, sqlite: Digest, h: Hashes)
    requires ValidMove(m) && IsMoved(b, b2, m) && DistinctSamples(b)
    requires DigestsOf(b, m.fromRoot, sqlite, h).Ok?
    ensures DigestsOf(b2, m.toRoot, sqlite, h) == DigestsOf(b, m.fromRoot, sqlite, h)
  {
    var items, items2 := RecordItems(b, Prefix(m.fromRoot), h), RecordItems(b2, Prefix(m.toRoot), h);
    RecordItemsMove(b, b2, m, h);
    FoldMoved(items, items2, m.record, EscapesRoot, DuplicateRecord);
    var records := Fold(items, EscapesRoot, DuplicateRecord).value;
    var records2 := Fold(items2, EscapesRoot, DuplicateRecord).value;
    var sets, sets2 := FieldSetItems(b, records.digestOf, h), FieldSetItems(b2, records2.digestOf, h);
    FieldSetItemsMove(b, b2, m, h, records.digestOf, records2.digestOf);
    FoldMoved(sets, sets2, m.fieldSet, MissingRecord, DuplicateFieldSet);
    var fieldSets := Fold(sets, MissingRecord, DuplicateFieldSet).value;
    var fieldSets2 := Fold(sets2, MissingRecord, DuplicateFieldSet).value;
    SamplesMove(b, b2, m, fieldSets.digestOf, fieldSets2.digestOf);
    SortedStrings(records2.digests, records.digests);
    SortedStrings(fieldSets2.digests, fieldSets.digests);
  }

  lemma SortedStrings(a: seq<string>, b: seq<string>)
    requires multiset(a) == multiset(b)
    ensures Sort(a, StringLe) == Sort(b, StringLe)
  {
    StringOrder();
    forall x, y | x in a && y in a && StringLe(x, y) && StringLe(y, x) ensures x == y { StringLeAntisymmetric(x, y); }
    SortForgetsOrder(a, b, StringLe);
  }

  // ------------------------------------------------------------------
  // What equal digests determine
  // ------------------------------------------------------------------

  /** A collision-free hash with hexadecimal output. */
  ghost predicate HexHash(h: Hashes) {
    && Injective(h.record) && Injective(h.fields) && Injective(h.text)
    && (forall r :: '\n' !in h.record(r)) && (forall f :: '\n' !in h.fields(f)) && (forall t :: '\n' !in h.text(t))
  }

  function DecimalValue(s: string): int {
    if s == [] then 0 else 10 * DecimalValue(s[..|s| - 1]) + (s[|s| - 1] as int - '0' as int)
  }

  lemma {:induction false} DecimalReads(n: nat)
    ensures DecimalValue(Decimal(n)) == n
  {
    if n >= 10 {
      DecimalReads(n / 10);
      assert Decimal(n)[..|Decimal(n)| - 1] == Decimal(n / 10);
    } else {
      assert Decimal(n)[..0] == [];
    }
  }

  lemma SampleLineTail(a: Assignment)
    ensures |SampleLine(a)| >= 7
    ensures SampleLine(a)[7..] == Decimal(a.particle) + "," + (Decimal(a.sequence) + "," + a.digest)
  {
    hide Decimal;
  }

  lemma SampleLineUnique(a: Assignment, b: Assignment)
    requires SampleLine(a) == SampleLine(b)
    ensures a == b
  {
    var pa, pb := Decimal(a.particle), Decimal(b.particle);
    var qa, qb := Decimal(a.sequence), Decimal(b.sequence);
    var resta, restb := qa + "," + a.digest, qb + "," + b.digest;
    SampleLineTail(a);
    SampleLineTail(b);
    hide SampleLine, Decimal, DecimalValue;
    CutUnique(pa, resta, pb, restb, ',');
    CutUnique(qa, a.digest, qb, b.digest, ',');
    DecimalReads(a.particle);
    DecimalReads(b.particle);
    DecimalReads(a.sequence);
    DecimalReads(b.sequence);
  }

  ghost predicate StartWith(lines: seq<string>, c: char) {
    forall i :: 0 <= i < |lines| ==> lines[i] != [] && lines[i][0] == c
  }

  ghost predicate NoneStartWith(lines: seq<string>, c: char) {
    forall i :: 0 <= i < |lines| ==> lines[i] != [] && lines[i][0] != c
  }

  /** A block of lines of one kind ends where the kind ends. */
  lemma BlockUnique(a: seq<string>, x: seq<string>, b: seq<string>, y: seq<string>, c: char)
    requires StartWith(a, c) && StartWith(b, c) && NoneStartWith(x, c) && NoneStartWith(y, c) && a + x == b + y
    ensures a == b && x == y
  {
    var s := a + x;
    assert forall i :: 0 <= i < |s| ==> s[i] != [] && (s[i][0] == c <==> i < |a|);
    assert forall i :: 0 <= i < |s| ==> s[i] != [] && (s[i][0] == c <==> i < |b|);
    var k := if |a| <= |b| then |a| else |b|;
    assert k < |s| ==> s[k] != [] && (s[k][0] == c <==> k < |a|) && (s[k][0] == c <==> k < |b|);
    assert a == s[..|a|] && b == s[..|b|] && x == s[|a|..] && y == s[|b|..];
  }

  lemma LinesStart(c: Content)
    ensures StartWith(Map(RecordLine, c.records), 'r')
    ensures StartWith(Map(FieldSetLine, c.fieldSets), 'f')
    ensures NoneStartWith(Map(FieldSetLine, c.fieldSets) + Map(SampleLine, c.samples), 'r')
    ensures NoneStartWith(Map(SampleLine, c.samples), 'f')
  {
    var f, s := Map(FieldSetLine, c.fieldSets), Map(SampleLine, c.samples);
    assert forall i :: 0 <= i < |f| ==> f[i] == FieldSetLine(c.fieldSets[i]);
    assert forall i :: 0 <= i < |s| ==> s[i] == SampleLine(c.samples[i]);
    SamplesStart(c.samples);
  }

  lemma SamplesStart(samples: seq<Assignment>)
    ensures forall i :: 0 <= i < |samples| ==> SampleLine(samples[i]) != [] && SampleLine(samples[i])[0] == 's'
  {
  }

  lemma AfterPrefix<T>(head: seq<T>, x: seq<T>, y: seq<T>, z: seq<T>, u: seq<T>, v: seq<T>, w: seq<T>)
    requires head + x + y + z == head + u + v + w
    ensures x + (y + z) == u + (v + w)
  {
    var left, right := x + (y + z), u + (v + w);
    assert head + x + y + z == head + left;
    assert head + u + v + w == head + right;
    assert (head + left)[|head|..] == left && (head + right)[|head|..] == right;
  }

  lemma BlocksUnique(a: Content, b: Content)
    requires Lines(a.records, a.fieldSets, a.samples) == Lines(b.records, b.fieldSets, b.samples)
    ensures Map(RecordLine, a.records) == Map(RecordLine, b.records)
    ensures Map(FieldSetLine, a.fieldSets) == Map(FieldSetLine, b.fieldSets)
    ensures Map(SampleLine, a.samples) == Map(SampleLine, b.samples)
  {
    var ra, rb := Map(RecordLine, a.records), Map(RecordLine, b.records);
    var fa, fb := Map(FieldSetLine, a.fieldSets), Map(FieldSetLine, b.fieldSets);
    var sa, sb := Map(SampleLine, a.samples), Map(SampleLine, b.samples);
    AfterPrefix(HEADER, ra, fa, sa, rb, fb, sb);
    hide *;
    LinesStart(a);
    LinesStart(b);
    BlockUnique(ra, fa + sa, rb, fb + sb, 'r');
    BlockUnique(fa, sa, fb, sb, 'f');
  }

  lemma LinesUnique(a: Content, b: Content)
    requires Lines(a.records, a.fieldSets, a.samples) == Lines(b.records, b.fieldSets, b.samples)
    ensures a == b
  {
    BlocksUnique(a, b);
    hide Lines, Map, SampleLine;
    forall x, y | RecordLine(x) == RecordLine(y) ensures x == y { TaggedUnique("record=", x, y); }
    forall x, y | FieldSetLine(x) == FieldSetLine(y) ensures x == y { TaggedUnique("field_set=", x, y); }
    forall x, y | SampleLine(x) == SampleLine(y) ensures x == y { SampleLineUnique(x, y); }
    MapUnique(RecordLine, a.records, b.records);
    MapUnique(FieldSetLine, a.fieldSets, b.fieldSets);
    MapUnique(SampleLine, a.samples, b.samples);
  }

  lemma TaggedUnique(tag: string, x: string, y: string)
    requires tag + x == tag + y
    ensures x == y
  {
    assert (tag + x)[|tag|..] == x && (tag + y)[|tag|..] == y;
  }

  lemma MapUnique<S(!new), T(!new)>(f: S -> T, a: seq<S>, b: seq<S>)
    requires Injective(f) && Map(f, a) == Map(f, b)
    ensures a == b
  {
    assert |a| == |Map(f, a)| == |b|;
    forall i | 0 <= i < |a| ensures a[i] == b[i] {
      assert Map(f, a)[i] == Map(f, b)[i];
    }
  }

  ghost predicate LineFree(digests: seq<Digest>) {
    forall i :: 0 <= i < |digests| ==> '\n' !in digests[i]
  }

  ghost predicate ContentLineFree(c: Content) {
    LineFree(c.records) && LineFree(c.fieldSets) && forall i :: 0 <= i < |c.samples| ==> '\n' !in c.samples[i].digest
  }

  lemma SampleLineFree(a: Assignment)
    requires '\n' !in a.digest
    ensures '\n' !in SampleLine(a)
  {
  }

  lemma SampleLinesFree(samples: seq<Assignment>)
    requires forall i :: 0 <= i < |samples| ==> '\n' !in samples[i].digest
    ensures AllFree(Map(SampleLine, samples), '\n')
  {
    forall i | 0 <= i < |samples| ensures '\n' !in Map(SampleLine, samples)[i] { SampleLineFree(samples[i]); }
  }

  lemma FormatLineFree()
    ensures '\n' !in FORMAT_LINE
  {
    forall i | 0 <= i < |FORMAT_LINE| ensures FORMAT_LINE[i] != '\n' {}
  }

  lemma AlgorithmLineFree()
    ensures '\n' !in ALGORITHM_LINE
  {
    assert '\n' !in "record_hash_algorithm=" && '\n' !in HASH_ALGORITHM;
  }

  lemma HeaderFree()
    ensures AllFree(HEADER, '\n')
  {
    FormatLineFree();
    AlgorithmLineFree();
    hide FORMAT_LINE, ALGORITHM_LINE;
  }

  lemma RecordLinesFree(records: seq<Digest>)
    requires LineFree(records)
    ensures AllFree(Map(RecordLine, records), '\n')
  {
  }

  lemma FieldSetLinesFree(fieldSets: seq<Digest>)
    requires LineFree(fieldSets)
    ensures AllFree(Map(FieldSetLine, fieldSets), '\n')
  {
  }

  lemma FreeAppend(a: seq<string>, b: seq<string>)
    requires AllFree(a, '\n') && AllFree(b, '\n')
    ensures AllFree(a + b, '\n')
  {
  }

  lemma LinesFree(c: Content)
    requires ContentLineFree(c)
    ensures AllFree(Lines(c.records, c.fieldSets, c.samples), '\n')
  {
    var r, f, s := Map(RecordLine, c.records), Map(FieldSetLine, c.fieldSets), Map(SampleLine, c.samples);
    HeaderFree();
    RecordLinesFree(c.records);
    FieldSetLinesFree(c.fieldSets);
    SampleLinesFree(c.samples);
    hide AllFree, Map;
    FreeAppend(HEADER, r);
    FreeAppend(HEADER + r, f);
    FreeAppend(HEADER + r + f, s);
  }

  /** The records with their sources relative to the data root. */
  function NormalizedRecords(b: Bundle, root: string): seq<Record> {
    Map((e: RecordEntry) =>
          if Contained(e.record.sources, Prefix(root)) then Normalize(e.record, Prefix(root)) else e.record,
        b.records)
  }

  /** The field sets, each slot with the normalized hash of the record it names. */
  function ResolvedFieldSets(b: Bundle, root: string, h: Hashes): seq<map<string, Digest>> {
    match Fold(RecordItems(b, Prefix(root), h), EscapesRoot, DuplicateRecord)
    case Err(_) => []
    case Ok(records) =>
      Map((e: FieldSetEntry) =>
            if Resolvable(e.fields, records.digestOf) then ResolveFields(e.fields, records.digestOf) else map[],
          b.fieldSets)
  }

  /** A successful loop over values collects their hashes. */
  lemma FoldHashes<T>(items: seq<Item>, values: seq<T>, hash: T -> Digest, u: DigestError, d: DigestError)
    requires Fold(items, u, d).Ok? && |items| == |values|
    requires forall i :: 0 <= i < |items| && items[i].digest.Some? ==> items[i].digest.value == hash(values[i])
    ensures multiset(Sort(Fold(items, u, d).value.digests, StringLe)) == multiset(Map(hash, values))
    ensures Sorted(Sort(Fold(items, u, d).value.digests, StringLe), StringLe)
  {
    FoldExact(items, u, d);
    var digests := Fold(items, u, d).value.digests;
    StringOrder();
    SortSorts(digests, StringLe);
    assert digests == Map(hash, values);
  }

  /** The sorted hashes of the content are those of the normalized records and resolved field sets. */
  lemma ContentIsHashed(b: Bundle, root: string, h: Hashes)
    requires ContentOf(b, root, h).Ok?
    ensures var c := ContentOf(b, root, h).value;
            && multiset(c.records) == multiset(Map(h.record, NormalizedRecords(b, root)))
            && multiset(c.fieldSets) == multiset(Map(h.fields, ResolvedFieldSets(b, root, h)))
            && Sorted(c.records, StringLe) && Sorted(c.fieldSets, StringLe)
  {
    hide Sort, Fold;
    var items := RecordItems(b, Prefix(root), h);
    var records := Fold(items, EscapesRoot, DuplicateRecord).value;
    FoldHashes(items, NormalizedRecords(b, root), h.record, EscapesRoot, DuplicateRecord);
    FoldHashes(FieldSetItems(b, records.digestOf, h), ResolvedFieldSets(b, root, h), h.fields,
               MissingRecord, DuplicateFieldSet);
  }

  /** Sorted hashes of lists equal up to order are equal. */
  lemma SortedHashesAgree<T>(hash: T -> Digest, a: seq<Digest>, b: seq<Digest>, x: seq<T>, y: seq<T>)
    requires Sorted(a, StringLe) && Sorted(b, StringLe)
    requires multiset(a) == multiset(Map(hash, x)) && multiset(b) == multiset(Map(hash, y))
    requires multiset(x) == multiset(y)
    ensures a == b
  {
    MapForgetsOrder(hash, x, y);
    StringOrder();
    forall p, q | p in a && q in a && StringLe(p, q) && StringLe(q, p) ensures p == q { StringLeAntisymmetric(p, q); }
    SortedUnique(a, b, StringLe);
  }

  /** The hashed content is the same exactly when everything behind it is. */
  lemma ContentExact(b: Bundle, root: string, b2: Bundle, root2: string, h: Hashes)
    requires HexHash(h) && ContentOf(b, root, h).Ok? && ContentOf(b2, root2, h).Ok?
    ensures var c, c2 := ContentOf(b, root, h).value, ContentOf(b2, root2, h).value;
            c == c2 <==>
            && multiset(NormalizedRecords(b, root)) == multiset(NormalizedRecords(b2, root2))
            && multiset(ResolvedFieldSets(b, root, h)) == multiset(ResolvedFieldSets(b2, root2, h))
            && c.samples == c2.samples
  {
    ContentIsHashed(b, root, h);
    ContentIsHashed(b2, root2, h);
    hide ContentOf, NormalizedRecords, ResolvedFieldSets, Sorted, Map;
    var c, c2 := ContentOf(b, root, h).value, ContentOf(b2, root2, h).value;
    var r, r2 := NormalizedRecords(b, root), NormalizedRecords(b2, root2);
    var f, f2 := ResolvedFieldSets(b, root, h), ResolvedFieldSets(b2, root2, h);
    if c == c2 {
      InjectiveReflects(h.record, r, r2);
      InjectiveReflects(h.fields, f, f2);
    }
    if multiset(r) == multiset(r2) { SortedHashesAgree(h.record, c.records, c2.records, r, r2); }
    if multiset(f) == multiset(f2) { SortedHashesAgree(h.fields, c.fieldSets, c2.fieldSets, f, f2); }
  }

  lemma HashesHaveNoLineBreaks<T(!new)>(hash: T -> Digest, values: seq<T>, digests: seq<Digest>)
    requires multiset(digests) == multiset(Map(hash, values)) && forall x :: '\n' !in hash(x)
    ensures LineFree(digests)
  {
    forall i | 0 <= i < |digests| ensures '\n' !in digests[i] {
      assert digests[i] in multiset(digests);
      var j := InMap(hash, values, digests, digests[i]);
    }
  }

  lemma SamplesHaveNoLineBreaks(b: Bundle, root: string, h: Hashes)
    requires ContentOf(b, root, h).Ok? && HexHash(h)
    ensures var c := ContentOf(b, root, h).value;
            forall i :: 0 <= i < |c.samples| ==> '\n' !in c.samples[i].digest
  {
    hide Sort, StringLe, SampleLe, FieldSetItems, RecordItems, Prefix;
    var c := ContentOf(b, root, h).value;
    var records := Fold(RecordItems(b, Prefix(root), h), EscapesRoot, DuplicateRecord).value;
    var sets := FieldSetItems(b, records.digestOf, h);
    var fieldSets := Fold(sets, MissingRecord, DuplicateFieldSet).value;
    FoldExact(sets, MissingRecord, DuplicateFieldSet);
    forall i | 0 <= i < |c.samples| ensures '\n' !in c.samples[i].digest {
      var s := Sort(b.samples, SampleLe)[i];
      if s.fieldSet in fieldSets.digestOf {
        var j :| 0 <= j < |sets| && Map(ShaOf, sets)[j] == s.fieldSet;
        FieldSetDigestIsHex(b, records.digestOf, h, j);
      }
    }
  }

  lemma FieldSetDigestIsHex(b: Bundle, recordMap: map<Digest, Digest>, h: Hashes, j: nat)
    requires HexHash(h) && j < |FieldSetItems(b, recordMap, h)|
    ensures var digest := FieldSetItems(b, recordMap, h)[j].digest; digest.Some? ==> '\n' !in digest.value
  {
  }

  lemma ContentHasNoLineBreaks(b: Bundle, root: string, h: Hashes)
    requires ContentOf(b, root, h).Ok? && HexHash(h)
    ensures ContentLineFree(ContentOf(b, root, h).value)
  {
    ContentIsHashed(b, root, h);
    SamplesHaveNoLineBreaks(b, root, h);
    hide ContentOf, NormalizedRecords, ResolvedFieldSets, LineFree;
    var c := ContentOf(b, root, h).value;
    HashesHaveNoLineBreaks(h.record, NormalizedRecords(b, root), c.records);
    HashesHaveNoLineBreaks(h.fields, ResolvedFieldSets(b, root, h), c.fieldSets);
  }

  lemma TextDetermines(a: Content, b: Content)
    requires ContentLineFree(a) && ContentLineFree(b)
    requires Terminated(Lines(a.records, a.fieldSets, a.samples), '\n')
             == Terminated(Lines(b.records, b.fieldSets, b.samples), '\n')
    ensures a == b
  {
    LinesFree(a);
    LinesFree(b);
    TerminatedUnique(Lines(a.records, a.fieldSets, a.samples), Lines(b.records, b.fieldSets, b.samples), '\n');
    LinesUnique(a, b);
  }

  lemma CanonicalDetermines(p: Digest, sqlite: Digest, p2: Digest, sqlite2: Digest)
    requires '\n' !in p && '\n' !in p2 && '\n' !in sqlite && '\n' !in sqlite2
    requires CanonicalText(p, sqlite) == CanonicalText(p2, sqlite2)
    ensures p == p2 && sqlite == sqlite2
  {
    var s, s2 := "sqlite_sql_sha256=" + sqlite, "sqlite_sql_sha256=" + sqlite2;
    var t, t2 := "provenance_content_sha256=" + p, "provenance_content_sha256=" + p2;
    var lines: seq<string>, lines2: seq<string> := [s, t], [s2, t2];
    assert ([CANONICAL_HEADER] + lines)[1..] == lines && ([CANONICAL_HEADER] + lines2)[1..] == lines2;
    assert CanonicalText(p, sqlite)[|CANONICAL_HEADER| + 1..] == Terminated(lines, '\n');
    assert CanonicalText(p2, sqlite2)[|CANONICAL_HEADER| + 1..] == Terminated(lines2, '\n');
    forall i | 0 <= i < 2 ensures '\n' !in lines[i] && '\n' !in lines2[i] {
      assert '\n' !in "sqlite_sql_sha256=" && '\n' !in "provenance_content_sha256=";
    }
    TerminatedUnique(lines, lines2, '\n');
    assert lines[0] == lines2[0] && lines[1] == lines2[1];
    assert s[18..] == sqlite && s2[18..] == sqlite2 && t[26..] == p && t2[26..] == p2;
  }

  /**
   With a collision-free hash, two runs have equal digests exactly when their normalized records
   agree as multisets, their resolved field sets agree as multisets, and their sample assignments
   agree; the canonical digest says in addition that the database hashes agree.
   */
  lemma DigestsDetermine(b: Bundle, root: string, sqlite: Digest, b2: Bundle, root2: string, sqlite2: Digest, h: Hashes)
    requires HexHash(h) && '\n' !in sqlite && '\n' !in sqlite2
    requires DigestsOf(b, root, sqlite, h).Ok? && DigestsOf(b2, root2, sqlite2, h).Ok?
    ensures var d, d2 := DigestsOf(b, root, sqlite, h).value, DigestsOf(b2, root2, sqlite2, h).value;
            var c, c2 := ContentOf(b, root, h).value, ContentOf(b2, root2, h).value;
            && (d.provenance == d2.provenance <==>
                  && multiset(NormalizedRecords(b, root)) == multiset(NormalizedRecords(b2, root2))
                  && multiset(ResolvedFieldSets(b, root, h)) == multiset(ResolvedFieldSets(b2, root2, h))
                  && c.samples == c2.samples)
            && (d.canonical == d2.canonical <==> d.provenance == d2.provenance && sqlite == sqlite2)
  {
    var d, d2 := DigestsOf(b, root, sqlite, h).value, DigestsOf(b2, root2, sqlite2, h).value;
    var c, c2 := ContentOf(b, root, h).value, ContentOf(b2, root2, h).value;
    ContentHasNoLineBreaks(b, root, h);
    ContentHasNoLineBreaks(b2, root2, h);
    if d.provenance == d2.provenance {
      TextDetermines(c, c2);
    }
    if d.canonical == d2.canonical {
      CanonicalDetermines(d.provenance, sqlite, d2.provenance, sqlite2);
    }
    ContentExact(b, root, b2, root2, h);
  }
}
