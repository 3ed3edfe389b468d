/** The canonical form of a provenance bundle, as validate_provenance_semantics checks it. */
module CanonicalBundle {
  import opened Wrappers
  import opened Sorting
  import opened Mapping

  type Digest = string

  datatype Parameter = Parameter(name: string, value: string)
  datatype Transform = Transform(operation: string, parameters: seq<Parameter>)

  /** The checked members of a record, and the canonical form of its others. */
  datatype Record = Record(field: string, transforms: seq<Transform>, rest: string)

  /** The five nullable references of a field set. */
  datatype Slot = EastwardWind | NorthwardWind | VerticalVelocity | AirPressure | AirTemperature
  type Fields = map<Slot, Option<Digest>>

  datatype RecordEntry = RecordEntry(sha: Digest, record: Record)
  datatype FieldSetEntry = FieldSetEntry(sha: Digest, fields: Fields)
  datatype Sample = Sample(particle: nat, sequence: nat, fieldSet: Digest)
  datatype Bundle = Bundle(records: seq<RecordEntry>, fieldSets: seq<FieldSetEntry>, samples: seq<Sample>)

  datatype Hashes = Hashes(record: Record -> Digest, fields: Fields -> Digest)

  datatype Refusal =
    | UnsortedRecords | DuplicateRecord | RecordMismatch | UnsortedParameters | DuplicateParameter
    | UnsortedFieldSets | DuplicateFieldSet | FieldSetMismatch | MissingSlot | UnknownRecord | WrongField
    | UnsortedSamples | DuplicateSample | UnknownFieldSet

  const SLOTS: seq<Slot> := [EastwardWind, NorthwardWind, VerticalVelocity, AirPressure, AirTemperature]

  function FieldOf(slot: Slot): string {
    match slot
    case EastwardWind => "eastward_wind"
    case NorthwardWind => "northward_wind"
    case VerticalVelocity => "geometric_vertical_velocity"
    case AirPressure => "air_pressure"
    case AirTemperature => "air_temperature"
  }

  /** Each slot has its own name for its field; the five slots are all there are. */
  lemma FieldTexts()
    ensures FieldOf(EastwardWind) == "eastward_wind" && FieldOf(NorthwardWind) == "northward_wind"
    ensures FieldOf(VerticalVelocity) == "geometric_vertical_velocity"
    ensures FieldOf(AirPressure) == "air_pressure" && FieldOf(AirTemperature) == "air_temperature"
  {
  }

  /** Parameters are ordered by name, then by value. */
  lemma ParameterOrderExact(a: Parameter, b: Parameter)
    ensures a.name != b.name ==> (ParameterLe(a, b) <==> StringLe(a.name, b.name))
    ensures a.name == b.name ==> (ParameterLe(a, b) <==> StringLe(a.value, b.value))
  {
  }

  // ------------------------------------------------------------------
  // Acceptance
  // ------------------------------------------------------------------

  predicate ParameterLe(a: Parameter, b: Parameter) {
    if a.name == b.name then StringLe(a.value, b.value) else StringLe(a.name, b.name)
  }

  /** Parameters sorted by name and value, names pairwise different. */
  ghost predicate CanonicalParameters(parameters: seq<Parameter>) {
    && Sorted(parameters, ParameterLe)
    && forall i, j :: 0 <= i < j < |parameters| ==> parameters[i].name != parameters[j].name
  }

  ghost predicate CanonicalRecord(r: Record) {
    forall i :: 0 <= i < |r.transforms| ==> CanonicalParameters(r.transforms[i].parameters)
  }

  ghost predicate CanonicalRecords(records: seq<RecordEntry>, h: Hashes) {
    && (forall i, j :: 0 <= i < j < |records| ==>
          StringLe(records[i].sha, records[j].sha) && records[i].sha != records[j].sha)
    && forall i :: 0 <= i < |records| ==>
         records[i].sha == h.record(records[i].record) && CanonicalRecord(records[i].record)
  }

  /** A slot's reference, if any, names a record of the slot's own field. */
  ghost predicate SlotResolves(fields: Fields, slot: Slot, records: seq<RecordEntry>) {
    && slot in fields
    && (fields[slot].Some? ==>
          exists i :: 0 <= i < |records| && records[i].sha == fields[slot].value
                      && records[i].record.field == FieldOf(slot))
  }

  ghost predicate CanonicalFieldSets(fieldSets: seq<FieldSetEntry>, records: seq<RecordEntry>, h: Hashes) {
    && (forall i, j :: 0 <= i < j < |fieldSets| ==>
          StringLe(fieldSets[i].sha, fieldSets[j].sha) && fieldSets[i].sha != fieldSets[j].sha)
    && forall i :: 0 <= i < |fieldSets| ==>
         && fieldSets[i].sha == h.fields(fieldSets[i].fields)
         && forall slot :: slot in SLOTS ==> SlotResolves(fieldSets[i].fields, slot, records)
  }

  predicate KeyLess(a: Sample, b: Sample) {
    a.particle < b.particle || (a.particle == b.particle && a.sequence < b.sequence)
  }

  /** Sample keys ascend by particle, then by sample number. */
  lemma KeyOrderExact(a: Sample, b: Sample)
    ensures a.particle != b.particle ==> (KeyLess(a, b) <==> a.particle < b.particle)
    ensures a.particle == b.particle ==> (KeyLess(a, b) <==> a.sequence < b.sequence)
  {
  }

  ghost predicate KeysAscend(samples: seq<Sample>) {
    forall i, j :: 0 <= i < j < |samples| ==> KeyLess(samples[i], samples[j])
  }

  ghost predicate IsListed(sha: Digest, fieldSets: seq<FieldSetEntry>) {
    exists j :: 0 <= j < |fieldSets| && fieldSets[j].sha == sha
  }

  ghost predicate CanonicalSamples(samples: seq<Sample>, fieldSets: seq<FieldSetEntry>) {
    && KeysAscend(samples)
    && forall i :: 0 <= i < |samples| ==> IsListed(samples[i].fieldSet, fieldSets)
  }

  ghost predicate Canonical(b: Bundle, h: Hashes) {
    && CanonicalRecords(b.records, h)
    && CanonicalFieldSets(b.fieldSets, b.records, h)
    && CanonicalSamples(b.samples, b.fieldSets)
  }

  // ------------------------------------------------------------------
  // The validation loops
  // ------------------------------------------------------------------

  /** Whether the hashes are sorted, and whether they are pairwise different. */
  method CheckHashes(hashes: seq<Digest>) returns (isSorted: bool, isDistinct: bool)
    ensures isSorted <==> Sorted(hashes, StringLe)
    ensures isSorted ==> (isDistinct <==> forall i, j :: 0 <= i < j < |hashes| ==> hashes[i] != hashes[j])
  {
    SortedExact(hashes);
    isSorted := hashes == Sort(hashes, StringLe);
    isDistinct := |set x | x in hashes| == |hashes|;
    DistinctExact(hashes);
  }

  /** A list equals its sorted copy exactly when it is sorted. */
  lemma SortedExact(s: seq<Digest>)
    ensures s == Sort(s, StringLe) <==> Sorted(s, StringLe)
  {
    StringOrder();
    SortSorts(s, StringLe);
    if Sorted(s, StringLe) {
      forall x, y | x in s && y in s && StringLe(x, y) && StringLe(y, x) ensures x == y { StringLeAntisymmetric(x, y); }
      SortedUnique(s, Sort(s, StringLe), StringLe);
    }
  }

  /** A list is as long as its set of elements exactly when it repeats nothing. */
  lemma {:induction false} DistinctExact<T>(s: seq<T>)
    ensures |set x | x in s| <= |s|
    ensures |set x | x in s| == |s| <==> forall i, j :: 0 <= i < j < |s| ==> s[i] != s[j]
  {
    if s != [] {
      var before, last := s[..|s| - 1], s[|s| - 1];
      DistinctExact(before);
      assert s == before + [last];
      SetOfLast(before, last);
      LastRepeats(before, last);
    }
  }

  lemma SetOfLast<T>(before: seq<T>, last: T)
    ensures (set x | x in before + [last]) == (set x | x in before) + {last}
    ensures |set x | x in before + [last]| == |set x | x in before| + if last in before then 0 else 1
  {
    var all, some := set x | x in before + [last], set x | x in before;
    assert all == some + {last};
    if last in before { assert some + {last} == some; }
  }

  lemma LastRepeats<T>(before: seq<T>, last: T)
    ensures var s := before + [last];
            (forall i, j :: 0 <= i < j < |s| ==> s[i] != s[j]) <==>
            (forall i, j :: 0 <= i < j < |before| ==> before[i] != before[j]) && last !in before
  {
    var s := before + [last];
    assert forall i :: 0 <= i < |before| ==> s[i] == before[i];
    if last in before {
      var i :| 0 <= i < |before| && before[i] == last;
      assert s[i] == s[|before|];
    }
  }

  method CheckParameters(r: Record) returns (refusal: Option<Refusal>)
    ensures refusal.None? <==> CanonicalRecord(r)
  {
    for i := 0 to |r.transforms|
      invariant forall j :: 0 <= j < i ==> CanonicalParameters(r.transforms[j].parameters)
    {
      var problem := CheckOneTransform(r.transforms[i].parameters);
      if problem.Some? {
        return problem;
      }
    }
    refusal := None;
  }

  method CheckOneTransform(parameters: seq<Parameter>) returns (refusal: Option<Refusal>)
    ensures refusal.None? <==> CanonicalParameters(parameters)
  {
    ParametersExact(parameters);
    if parameters != Sort(parameters, ParameterLe) {
      return Some(UnsortedParameters);
    }
    hide Sort, Sorted, ParameterLe;
    var names := Map((p: Parameter) => p.name, parameters);
    DistinctExact(names);
    if |set x | x in names| != |parameters| {
      var a, b :| 0 <= a < b < |names| && names[a] == names[b];
      assert parameters[a].name == parameters[b].name;
      return Some(DuplicateParameter);
    }
    assert forall a, b :: 0 <= a < b < |parameters| ==> names[a] != names[b];
    refusal := None;
  }

  lemma ParametersExact(s: seq<Parameter>)
    ensures s == Sort(s, ParameterLe) <==> Sorted(s, ParameterLe)
  {
    ParameterOrder();
    SortSorts(s, ParameterLe);
    if Sorted(s, ParameterLe) {
      forall x, y | x in s && y in s && ParameterLe(x, y) && ParameterLe(y, x) ensures x == y {
        if x.name == y.name { StringLeAntisymmetric(x.value, y.value); } else { StringLeAntisymmetric(x.name, y.name); }
      }
      SortedUnique(s, Sort(s, ParameterLe), ParameterLe);
    }
  }

  lemma ParameterOrder()
    ensures TotalPreorder(ParameterLe)
  {
    forall x, y ensures ParameterLe(x, y) || ParameterLe(y, x) {
      StringLeTotal(x.name, y.name);
      StringLeTotal(x.value, y.value);
    }
    forall x, y, z | ParameterLe(x, y) && ParameterLe(y, z) ensures ParameterLe(x, z) {
      ParameterTransitive(x, y, z);
    }
  }

  lemma ParameterTransitive(x: Parameter, y: Parameter, z: Parameter)
    requires ParameterLe(x, y) && ParameterLe(y, z)
    ensures ParameterLe(x, z)
  {
    if x.name == y.name == z.name {
      StringLeTransitive(x.value, y.value, z.value);
    } else if x.name != y.name && y.name != z.name {
      StringLeTransitive(x.name, y.name, z.name);
      if x.name == z.name { StringLeAntisymmetric(x.name, y.name); }
    }
  }

  function ShaOf(e: RecordEntry): Digest { e.sha }
  function FieldSetSha(e: FieldSetEntry): Digest { e.sha }

  ghost predicate RecordTable(records: seq<RecordEntry>, n: nat, table: map<Digest, Record>)
    requires n <= |records|
  {
    && (forall i :: 0 <= i < n ==> records[i].sha in table && table[records[i].sha] == records[i].record)
    && forall x :: x in table ==> exists i :: 0 <= i < n && records[i].sha == x
  }

  lemma EmptyTable(records: seq<RecordEntry>)
    ensures RecordTable(records, 0, map[])
  {
  }

  /** Hashes of different entries differ, so adding an entry disturbs no other. */
  lemma TableStep(records: seq<RecordEntry>, n: nat, table: map<Digest, Record>, h: Hashes)
    requires n < |records| && RecordTable(records, n, table)
    requires forall i, j :: 0 <= i < j < |records| ==> records[i].sha != records[j].sha
    ensures RecordTable(records, n + 1, table[records[n].sha := records[n].record])
  {
  }

  method CheckRecords(records: seq<RecordEntry>, h: Hashes)
    returns (refusal: Option<Refusal>, table: map<Digest, Record>)
    ensures refusal.None? <==> CanonicalRecords(records, h)
    ensures refusal.None? ==> RecordTable(records, |records|, table)
  {
    hide CanonicalRecord, RecordTable, Sorted, StringLe;
    table := map[];
    EmptyTable(records);
    var isSorted, isDistinct := CheckHashes(Map(ShaOf, records));
    ShasExact(records);
    if !isSorted {
      return Some(UnsortedRecords), table;
    }
    if !isDistinct {
      return Some(DuplicateRecord), table;
    }
    for i := 0 to |records|
      invariant forall j :: 0 <= j < i ==>
        records[j].sha == h.record(records[j].record) && CanonicalRecord(records[j].record)
      invariant RecordTable(records, i, table)
    {
      var expected := h.record(records[i].record);
      if records[i].sha != expected {
        return Some(RecordMismatch), table;
      }
      TableStep(records, i, table, h);
      table := table[expected := records[i].record];
      var problem := CheckParameters(records[i].record);
      if problem.Some? {
        return problem, table;
      }
    }
    refusal := None;
  }

  /** Sorted hashes without duplicates, read back on the entries. */
  lemma ShasExact(records: seq<RecordEntry>)
    ensures var shas := Map(ShaOf, records);
            Sorted(shas, StringLe) && (forall i, j :: 0 <= i < j < |shas| ==> shas[i] != shas[j]) <==>
            forall i, j :: 0 <= i < j < |records| ==>
              StringLe(records[i].sha, records[j].sha) && records[i].sha != records[j].sha
  {
    var shas := Map(ShaOf, records);
    assert forall i :: 0 <= i < |records| ==> shas[i] == records[i].sha;
  }

  lemma FieldSetShasExact(fieldSets: seq<FieldSetEntry>)
    ensures var shas := Map(FieldSetSha, fieldSets);
            Sorted(shas, StringLe) && (forall i, j :: 0 <= i < j < |shas| ==> shas[i] != shas[j]) <==>
            forall i, j :: 0 <= i < j < |fieldSets| ==>
              StringLe(fieldSets[i].sha, fieldSets[j].sha) && fieldSets[i].sha != fieldSets[j].sha
  {
    var shas := Map(FieldSetSha, fieldSets);
    assert forall i :: 0 <= i < |fieldSets| ==> shas[i] == fieldSets[i].sha;
  }

  method CheckSlots(fields: Fields, records: seq<RecordEntry>, table: map<Digest, Record>)
    returns (refusal: Option<Refusal>)
    requires RecordTable(records, |records|, table)
    ensures refusal.None? <==> forall slot :: slot in SLOTS ==> SlotResolves(fields, slot, records)
  {
    for i := 0 to |SLOTS|
      invariant forall j :: 0 <= j < i ==> SlotResolves(fields, SLOTS[j], records)
    {
      var slot := SLOTS[i];
      assert slot in SLOTS;
      if slot !in fields {
        return Some(MissingSlot);
      }
      if fields[slot].Some? {
        var reference := fields[slot].value;
        if reference !in table {
          assert !SlotResolves(fields, slot, records);
          return Some(UnknownRecord);
        }
        if table[reference].field != FieldOf(slot) {
          assert !SlotResolves(fields, slot, records);
          return Some(WrongField);
        }
      }
      assert SlotResolves(fields, slot, records);
    }
    refusal := None;
  }

  method CheckFieldSets(fieldSets: seq<FieldSetEntry>, records: seq<RecordEntry>, table: map<Digest, Record>, h: Hashes)
    returns (refusal: Option<Refusal>, known: set<Digest>)
    requires RecordTable(records, |records|, table)
    ensures refusal.None? <==> CanonicalFieldSets(fieldSets, records, h)
    ensures refusal.None? ==> forall x :: x in known <==> IsListed(x, fieldSets)
  {
    known := {};
    var isSorted, isDistinct := CheckHashes(Map(FieldSetSha, fieldSets));
    FieldSetShasExact(fieldSets);
    if !isSorted {
      return Some(UnsortedFieldSets), known;
    }
    if !isDistinct {
      return Some(DuplicateFieldSet), known;
    }
    for i := 0 to |fieldSets|
      invariant forall j :: 0 <= j < i ==>
        && fieldSets[j].sha == h.fields(fieldSets[j].fields)
        && forall slot :: slot in SLOTS ==> SlotResolves(fieldSets[j].fields, slot, records)
      invariant forall x :: x in known <==> exists j :: 0 <= j < i && fieldSets[j].sha == x
    {
      var expected := h.fields(fieldSets[i].fields);
      if fieldSets[i].sha != expected {
        return Some(FieldSetMismatch), known;
      }
      known := known + {expected};
      var problem := CheckSlots(fieldSets[i].fields, records, table);
      if problem.Some? {
        return problem, known;
      }
    }
    refusal := None;
  }

  predicate KeyLe(a: Sample, b: Sample) {
    a.particle < b.particle || (a.particle == b.particle && a.sequence <= b.sequence)
  }

  /** Samples sorted by key, no key twice. */
  method CheckSampleKeys(samples: seq<Sample>) returns (refusal: Option<Refusal>)
    ensures refusal.None? <==> KeysAscend(samples)
  {
    var keys := Map((s: Sample) => (s.particle, s.sequence), samples);
    if i, j :| 0 <= i < j < |samples| && !KeyLe(samples[i], samples[j]) {
      assert !KeyLess(samples[i], samples[j]);
      return Some(UnsortedSamples);
    }
    DistinctExact(keys);
    if |set k | k in keys| != |samples| {
      var i, j :| 0 <= i < j < |keys| && keys[i] == keys[j];
      assert !KeyLess(samples[i], samples[j]);
      return Some(DuplicateSample);
    }
    forall i, j | 0 <= i < j < |samples| ensures KeyLess(samples[i], samples[j]) {
      assert KeyLe(samples[i], samples[j]) && keys[i] != keys[j];
    }
    refusal := None;
  }

  method CheckSamples(samples: seq<Sample>, fieldSets: seq<FieldSetEntry>, known: set<Digest>)
    returns (refusal: Option<Refusal>)
    requires forall x :: x in known <==> IsListed(x, fieldSets)
    ensures refusal.None? <==> CanonicalSamples(samples, fieldSets)
  {
    refusal := CheckSampleKeys(samples);
    if refusal.Some? {
      return;
    }
    for i := 0 to |samples|
      invariant forall k :: 0 <= k < i ==> samples[k].fieldSet in known
    {
      if samples[i].fieldSet !in known {
        return Some(UnknownFieldSet);
      }
    }
    refusal := None;
  }

  /** validate_provenance_semantics: it raises nothing exactly on canonical bundles. */
  method Validate(b: Bundle, h: Hashes) returns (refusal: Option<Refusal>)
    ensures refusal.None? <==> Canonical(b, h)
  {
    hide CanonicalRecords, CanonicalFieldSets, CanonicalSamples;
    var table: map<Digest, Record>, known: set<Digest>;
    refusal, table := CheckRecords(b.records, h);
    if refusal.Some? {
      return;
    }
    refusal, known := CheckFieldSets(b.fieldSets, b.records, table, h);
    if refusal.Some? {
      return;
    }
    refusal := CheckSamples(b.samples, b.fieldSets, known);
  }

  // ------------------------------------------------------------------
  // What acceptance means
  // ------------------------------------------------------------------

  ghost predicate Ascending<T>(s: seq<T>, less: (T, T) -> bool) {
    forall i, j :: 0 <= i < j < |s| ==> less(s[i], s[j])
  }

  /** Two strictly ascending lists of the same elements are the same list. */
  lemma {:induction false} AscendingUnique<T(!new)>(a: seq<T>, b: seq<T>, less: (T, T) -> bool)
    requires Ascending(a, less) && Ascending(b, less) && forall x, y :: !(less(x, y) && less(y, x))
    requires forall x :: x in a <==> x in b
    ensures a == b
  {
    assert a != [] ==> a[0] in b;
    assert b != [] ==> b[0] in a;
    if a != [] {
      var i :| 0 <= i < |b| && b[i] == a[0];
      var j :| 0 <= j < |a| && a[j] == b[0];
      assert a[0] == b[0];
      assert a == [a[0]] + a[1..] && b == [b[0]] + b[1..];
      forall x ensures x in a[1..] <==> x in b[1..] {
        assert x in a[1..] ==> less(a[0], x) && x in b;
        assert x in b[1..] ==> less(b[0], x) && x in a;
        assert !less(a[0], a[0]);
      }
      AscendingUnique(a[1..], b[1..], less);
    }
  }

  function Records(b: Bundle): set<Record> {
    set e | e in b.records :: e.record
  }

  function FieldSetValues(b: Bundle): set<Fields> {
    set e | e in b.fieldSets :: e.fields
  }

  function Assignments(b: Bundle): set<Sample> {
    set s | s in b.samples
  }

  /**
   A canonical bundle is the one enumeration of its content: two accepted bundles with the same
   records, the same field sets and the same sample assignments are identical, lists and hashes alike.
   */
  lemma CanonicalUnique(b: Bundle, b2: Bundle, h: Hashes)
    requires Canonical(b, h) && Canonical(b2, h)
    requires Records(b) == Records(b2)
    requires FieldSetValues(b) == FieldSetValues(b2)
    requires Assignments(b) == Assignments(b2)
    ensures b == b2
  {
    forall e ensures e in b.records <==> e in b2.records { RecordsFromContent(b, b2, h, e); }
    forall e ensures e in b.fieldSets <==> e in b2.fieldSets { FieldSetsFromContent(b, b2, h, e); }
    var recordLess := (x: RecordEntry, y: RecordEntry) => StringLe(x.sha, y.sha) && x.sha != y.sha;
    var fieldSetLess := (x: FieldSetEntry, y: FieldSetEntry) => StringLe(x.sha, y.sha) && x.sha != y.sha;
    forall x, y ensures !(recordLess(x, y) && recordLess(y, x)) {
      if recordLess(x, y) && StringLe(y.sha, x.sha) { StringLeAntisymmetric(x.sha, y.sha); }
    }
    forall x, y ensures !(fieldSetLess(x, y) && fieldSetLess(y, x)) {
      if fieldSetLess(x, y) && StringLe(y.sha, x.sha) { StringLeAntisymmetric(x.sha, y.sha); }
    }
    AscendingUnique(b.records, b2.records, recordLess);
    AscendingUnique(b.fieldSets, b2.fieldSets, fieldSetLess);
    forall s ensures s in b.samples <==> s in b2.samples {
      assert s in Assignments(b) <==> s in Assignments(b2);
    }
    AscendingUnique(b.samples, b2.samples, KeyLess);
  }

  lemma RecordsFromContent(b: Bundle, b2: Bundle, h: Hashes, e: RecordEntry)
    requires CanonicalRecords(b.records, h) && CanonicalRecords(b2.records, h)
    requires Records(b) == Records(b2)
    ensures e in b.records <==> e in b2.records
  {
    if e in b.records {
      assert e.record in Records(b2);
      var f :| f in b2.records && f.record == e.record;
    }
    if e in b2.records {
      assert e.record in Records(b);
      var f :| f in b.records && f.record == e.record;
    }
  }

  lemma FieldSetsFromContent(b: Bundle, b2: Bundle, h: Hashes, e: FieldSetEntry)
    requires CanonicalFieldSets(b.fieldSets, b.records, h) && CanonicalFieldSets(b2.fieldSets, b2.records, h)
    requires FieldSetValues(b) == FieldSetValues(b2)
    ensures e in b.fieldSets <==> e in b2.fieldSets
  {
    if e in b.fieldSets {
      assert e.fields in FieldSetValues(b2);
      var f :| f in b2.fieldSets && f.fields == e.fields;
    }
    if e in b2.fieldSets {
      assert e.fields in FieldSetValues(b);
      var f :| f in b.fieldSets && f.fields == e.fields;
    }
  }

  /** A record of the bundle with this hash, for this slot. */
  ghost predicate Supplies(b: Bundle, slot: Slot, sha: Digest, r: Record) {
    exists i :: 0 <= i < |b.records| && b.records[i].sha == sha && b.records[i].record == r && r.field == FieldOf(slot)
  }

  /** A non-null slot of a canonical field set names exactly one record, and it has the slot's field. */
  lemma SlotSupplied(b: Bundle, h: Hashes, fields: Fields, slot: Slot)
    requires CanonicalRecords(b.records, h) && SlotResolves(fields, slot, b.records) && fields[slot].Some?
    ensures exists r :: Supplies(b, slot, fields[slot].value, r)
                        && forall q :: Supplies(b, slot, fields[slot].value, q) ==> q == r
  {
    var i :| 0 <= i < |b.records| && b.records[i].sha == fields[slot].value
             && b.records[i].record.field == FieldOf(slot);
    assert Supplies(b, slot, fields[slot].value, b.records[i].record);
    forall q | Supplies(b, slot, fields[slot].value, q) ensures q == b.records[i].record {
      var k :| 0 <= k < |b.records| && b.records[k].sha == fields[slot].value && b.records[k].record == q;
      assert k == i;
    }
  }

  lemma EverySlot(slot: Slot)
    ensures slot in SLOTS
  {
    assert SLOTS[0] == EastwardWind && SLOTS[1] == NorthwardWind && SLOTS[2] == VerticalVelocity
      && SLOTS[3] == AirPressure && SLOTS[4] == AirTemperature;
  }

  /** In an accepted bundle every sample resolves to one field set, each non-null slot to one record of its field. */
  lemma SamplesResolve(b: Bundle, h: Hashes, s: Sample, slot: Slot) returns (fields: Fields)
    requires Canonical(b, h) && s in b.samples
    ensures FieldSetEntry(s.fieldSet, fields) in b.fieldSets
    ensures forall e :: e in b.fieldSets && e.sha == s.fieldSet ==> e.fields == fields
    ensures slot in fields
    ensures fields[slot].Some? ==> exists r :: Supplies(b, slot, fields[slot].value, r)
                                     && forall q :: Supplies(b, slot, fields[slot].value, q) ==> q == r
  {
    hide Supplies, CanonicalRecords, SlotResolves, StringLe;
    var j :| 0 <= j < |b.fieldSets| && b.fieldSets[j].sha == s.fieldSet;
    fields := b.fieldSets[j].fields;
    assert b.fieldSets[j] == FieldSetEntry(s.fieldSet, fields);
    EverySlot(slot);
    assert SlotResolves(fields, slot, b.records);
    SlotPresent(fields, slot, b.records);
    if fields[slot].Some? {
      SlotSupplied(b, h, fields, slot);
    }
  }

  lemma SlotPresent(fields: Fields, slot: Slot, records: seq<RecordEntry>)
    requires SlotResolves(fields, slot, records)
    ensures slot in fields
  {
  }
}
