/**
 The path-normalized provenance digests of a finished run: record and field-set hashes that do not
 see the data root, the exact hashes or the order of the bundle. The hash is a parameter.
 */
module ProvenanceDigest {
  import opened Wrappers
  import opened Sorting
  import opened Separated
  import opened Mapping

  type Digest = string

  /** A record's sources, and the canonical form of its other members. */
  datatype Record = Record(sources: seq<string>, rest: string)

  datatype RecordEntry = RecordEntry(sha: Digest, record: Record)
  datatype FieldSetEntry = FieldSetEntry(sha: Digest, fields: map<string, Option<Digest>>)
  datatype Sample = Sample(particle: nat, sequence: nat, fieldSet: Digest)

  datatype Bundle = Bundle(records: seq<RecordEntry>, fieldSets: seq<FieldSetEntry>, samples: seq<Sample>)

  datatype DigestError = EscapesRoot | DuplicateRecord | MissingRecord | DuplicateFieldSet | MissingFieldSet

  /** SHA-256 over canonical JSON of a record, of a field-set object, and over text. */
  datatype Hashes = Hashes(record: Record -> Digest, fields: map<string, Digest> -> Digest, text: string -> Digest)

  datatype Digests = Digests(provenance: Digest, canonical: Digest)

  /** Exact hashes seen so far with their normalized hashes, and the normalized hashes in order. */
  datatype Seen = Seen(digestOf: map<Digest, Digest>, digests: seq<Digest>)

  // ------------------------------------------------------------------
  // Normalization
  // ------------------------------------------------------------------

  function StripSlashes(path: string): string {
    if path != [] && path[|path| - 1] == '/' then StripSlashes(path[..|path| - 1]) else path
  }

  /** The resolved data root with one trailing slash. */
  function Prefix(root: string): (prefix: string)
    ensures prefix != []
  {
    StripSlashes(root) + "/"
  }

  function NormalizeSource(source: string, prefix: string): Option<string> {
    if prefix <= source then Some("dataset://" + source[|prefix|..])
    else if source != [] && source[0] == '/' then None
    else Some(source)
  }

  predicate Contained(sources: seq<string>, prefix: string) {
    forall i :: 0 <= i < |sources| ==> NormalizeSource(sources[i], prefix).Some?
  }

  function Normalize(r: Record, prefix: string): Record
    requires Contained(r.sources, prefix)
  {
    r.(sources := seq(|r.sources|, i requires 0 <= i < |r.sources| => NormalizeSource(r.sources[i], prefix).value))
  }

  predicate Resolvable(fields: map<string, Option<Digest>>, digestOf: map<Digest, Digest>) {
    forall name :: name in fields ==> fields[name].Some? && fields[name].value in digestOf
  }

  function ResolveFields(fields: map<string, Option<Digest>>, digestOf: map<Digest, Digest>): map<string, Digest>
    requires Resolvable(fields, digestOf)
  {
    map name | name in fields :: digestOf[fields[name].value]
  }

  // ------------------------------------------------------------------
  // The loops as folds
  // ------------------------------------------------------------------

  /** One bundle entry as both loops see it: its exact hash, and its normalized hash if it has one. */
  datatype Item = Item(sha: Digest, digest: Option<Digest>)

  function RecordItem(e: RecordEntry, prefix: string, h: Hashes): Item {
    Item(e.sha, if Contained(e.record.sources, prefix) then Some(h.record(Normalize(e.record, prefix))) else None)
  }

  function FieldSetItem(e: FieldSetEntry, records: map<Digest, Digest>, h: Hashes): Item {
    Item(e.sha, if Resolvable(e.fields, records) then Some(h.fields(ResolveFields(e.fields, records))) else None)
  }

  function RecordItems(b: Bundle, prefix: string, h: Hashes): seq<Item> {
    Map((e: RecordEntry) => RecordItem(e, prefix, h), b.records)
  }

  function FieldSetItems(b: Bundle, records: map<Digest, Digest>, h: Hashes): seq<Item> {
    Map((e: FieldSetEntry) => FieldSetItem(e, records, h), b.fieldSets)
  }

  /** Both loops: the first entry without a normalized hash, or with a repeated exact hash, fails. */
  function Fold(items: seq<Item>, unresolved: DigestError, duplicate: DigestError): Result<Seen, DigestError> {
    if items == [] then Ok(Seen(map[], []))
    else
      match Fold(items[..|items| - 1], unresolved, duplicate)
      case Err(error) => Err(error)
      case Ok(seen) =>
        var item := items[|items| - 1];
        if item.digest.None? then Err(unresolved)
        else if item.sha in seen.digestOf then Err(duplicate)
        else Ok(Seen(seen.digestOf[item.sha := item.digest.value], seen.digests + [item.digest.value]))
  }

  predicate SampleLe(a: Sample, b: Sample) {
    a.particle < b.particle || (a.particle == b.particle && a.sequence <= b.sequence)
  }

  /** A decimal integer as Python formats it. */
  function Decimal(n: nat): (s: string)
    ensures s != [] && forall i :: 0 <= i < |s| ==> '0' <= s[i] <= '9'
  {
    if n < 10 then ['0' + n as char] else Decimal(n / 10) + ['0' + (n % 10) as char]
  }

  /** A sample with its field set's normalized hash in place of the exact one. */
  datatype Assignment = Assignment(particle: nat, sequence: nat, digest: Digest)

  function Assign(s: Sample, fieldSets: map<Digest, Digest>): Assignment {
    Assignment(s.particle, s.sequence, if s.fieldSet in fieldSets then fieldSets[s.fieldSet] else "")
  }

  function RecordLine(d: Digest): string { "record=" + d }
  function FieldSetLine(d: Digest): string { "field_set=" + d }
  function SampleLine(a: Assignment): string {
    "sample=" + Decimal(a.particle) + "," + Decimal(a.sequence) + "," + a.digest
  }

  const FORMAT_LINE: string := "trajecta.m5-a5-path-normalized-provenance/v1"
  const HASH_ALGORITHM: string := "sha256-json-sorted-utf8"
  const ALGORITHM_LINE: string := "record_hash_algorithm=" + HASH_ALGORITHM
  const HEADER: seq<string> := [FORMAT_LINE, ALGORITHM_LINE]

  const CANONICAL_HEADER: string := "trajecta.m5-a5-path-normalized-canonical-output/v1"

  /** The lines that are hashed, given sorted hashes and sorted assignments. */
  function Lines(records: seq<Digest>, fieldSets: seq<Digest>, samples: seq<Assignment>): seq<string> {
    HEADER + Map(RecordLine, records) + Map(FieldSetLine, fieldSets) + Map(SampleLine, samples)
  }

  function CanonicalText(provenance: Digest, sqlite: Digest): string {
    Terminated([CANONICAL_HEADER] + ["sqlite_sql_sha256=" + sqlite, "provenance_content_sha256=" + provenance], '\n')
  }

  /** The content behind the digests, or the exception. */
  datatype Content = Content(records: seq<Digest>, fieldSets: seq<Digest>, samples: seq<Assignment>)

  function ContentOf(b: Bundle, root: string, h: Hashes): Result<Content, DigestError> {
    match Fold(RecordItems(b, Prefix(root), h), EscapesRoot, DuplicateRecord)
    case Err(error) => Err(error)
    case Ok(records) =>
      match Fold(FieldSetItems(b, records.digestOf, h), MissingRecord, DuplicateFieldSet)
      case Err(error) => Err(error)
      case Ok(fieldSets) =>
        if exists i :: 0 <= i < |b.samples| && b.samples[i].fieldSet !in fieldSets.digestOf then Err(MissingFieldSet)
        else
          Ok(Content(Sort(records.digests, StringLe), Sort(fieldSets.digests, StringLe),
                     Map((s: Sample) => Assign(s, fieldSets.digestOf), Sort(b.samples, SampleLe))))
  }

  function DigestsOf(b: Bundle, root: string, sqlite: Digest, h: Hashes): Result<Digests, DigestError> {
    match ContentOf(b, root, h)
    case Err(error) => Err(error)
    case Ok(c) =>
      var provenance := h.text(Terminated(Lines(c.records, c.fieldSets, c.samples), '\n'));
      Ok(Digests(provenance, h.text(CanonicalText(provenance, sqlite))))
  }

  // ------------------------------------------------------------------
  // path_normalized_provenance_digests
  // ------------------------------------------------------------------

  lemma SampleOrder()
    ensures TotalPreorder(SampleLe)
  {
  }

  lemma {:induction false} FailurePersists(items: seq<Item>, n: nat, unresolved: DigestError, duplicate: DigestError)
    requires n <= |items| && Fold(items[..n], unresolved, duplicate).Err?
    ensures Fold(items, unresolved, duplicate) == Fold(items[..n], unresolved, duplicate)
    decreases |items|
  {
    if n == |items| {
      assert items[..n] == items;
    } else {
      var before := items[..|items| - 1];
      assert before[..n] == items[..n];
      FailurePersists(before, n, unresolved, duplicate);
    }
  }

  lemma NothingSeen(items: seq<Item>, unresolved: DigestError, duplicate: DigestError)
    ensures Fold(items[..0], unresolved, duplicate) == Ok(Seen(map[], []))
  {
  }

  /** One more entry: the loop body. */
  lemma FoldStep(items: seq<Item>, i: nat, unresolved: DigestError, duplicate: DigestError)
    requires i < |items| && Fold(items[..i], unresolved, duplicate).Ok?
    ensures var seen, item := Fold(items[..i], unresolved, duplicate).value, items[i];
            Fold(items[..i + 1], unresolved, duplicate)
            == if item.digest.None? then Err(unresolved)
               else if item.sha in seen.digestOf then Err(duplicate)
               else Ok(Seen(seen.digestOf[item.sha := item.digest.value], seen.digests + [item.digest.value]))
  {
    assert items[..i + 1][..i] == items[..i];
  }

  /** The source loop: a source outside the data root is an error. */
  method NormalizeSources(r: Record, prefix: string) returns (normalized: Option<Record>)
    ensures normalized == if Contained(r.sources, prefix) then Some(Normalize(r, prefix)) else None
  {
    var sources: seq<string> := [];
    for j := 0 to |r.sources|
      invariant |sources| == j
      invariant forall i :: 0 <= i < j ==> NormalizeSource(r.sources[i], prefix) == Some(sources[i])
    {
      var source := NormalizeSource(r.sources[j], prefix);
      if source.None? {
        return None;
      }
      sources := sources + [source.value];
    }
    assert Normalize(r, prefix).sources == sources;
    normalized := Some(r.(sources := sources));
  }

  method NormalizeRecords(b: Bundle, prefix: string, h: Hashes) returns (r: Result<Seen, DigestError>)
    ensures r == Fold(RecordItems(b, prefix, h), EscapesRoot, DuplicateRecord)
  {
    hide Normalize, Contained, Fold;
    ghost var items := RecordItems(b, prefix, h);
    NothingSeen(items, EscapesRoot, DuplicateRecord);
    var recordMap: map<Digest, Digest> := map[];
    var normalizedRecords: seq<Digest> := [];
    for i := 0 to |b.records|
      invariant Fold(items[..i], EscapesRoot, DuplicateRecord) == Ok(Seen(recordMap, normalizedRecords))
    {
      var entry := b.records[i];
      FoldStep(items, i, EscapesRoot, DuplicateRecord);
      var normalized := NormalizeSources(entry.record, prefix);
      if normalized.None? {
        FailurePersists(items, i + 1, EscapesRoot, DuplicateRecord);
        return Err(EscapesRoot);
      }
      if entry.sha in recordMap {
        FailurePersists(items, i + 1, EscapesRoot, DuplicateRecord);
        return Err(DuplicateRecord);
      }
      var digest := h.record(normalized.value);
      recordMap := recordMap[entry.sha := digest];
      normalizedRecords := normalizedRecords + [digest];
    }
    assert items[..|items|] == items;
    r := Ok(Seen(recordMap, normalizedRecords));
  }

  method NormalizeFieldSets(b: Bundle, recordMap: map<Digest, Digest>, h: Hashes) returns (r: Result<Seen, DigestError>)
    ensures r == Fold(FieldSetItems(b, recordMap, h), MissingRecord, DuplicateFieldSet)
  {
    hide Resolvable, ResolveFields, Fold;
    ghost var items := FieldSetItems(b, recordMap, h);
    NothingSeen(items, MissingRecord, DuplicateFieldSet);
    var fieldSetMap: map<Digest, Digest> := map[];
    var normalizedFieldSets: seq<Digest> := [];
    for i := 0 to |b.fieldSets|
      invariant Fold(items[..i], MissingRecord, DuplicateFieldSet) == Ok(Seen(fieldSetMap, normalizedFieldSets))
    {
      var entry := b.fieldSets[i];
      FoldStep(items, i, MissingRecord, DuplicateFieldSet);
      if !Resolvable(entry.fields, recordMap) {
        FailurePersists(items, i + 1, MissingRecord, DuplicateFieldSet);
        return Err(MissingRecord);
      }
      var digest := h.fields(ResolveFields(entry.fields, recordMap));
      if entry.sha in fieldSetMap {
        FailurePersists(items, i + 1, MissingRecord, DuplicateFieldSet);
        return Err(DuplicateFieldSet);
      }
      fieldSetMap := fieldSetMap[entry.sha := digest];
      normalizedFieldSets := normalizedFieldSets + [digest];
    }
    assert items[..|items|] == items;
    r := Ok(Seen(fieldSetMap, normalizedFieldSets));
  }

  /** Samples by key, each with its field set's normalized hash. */
  method ResolveSamples(b: Bundle, fieldSetMap: map<Digest, Digest>) returns (r: Option<seq<Assignment>>)
    ensures r.None? <==> exists i :: 0 <= i < |b.samples| && b.samples[i].fieldSet !in fieldSetMap
    ensures r.Some? ==> r.value == Map((s: Sample) => Assign(s, fieldSetMap), Sort(b.samples, SampleLe))
  {
    var samples := Sort(b.samples, SampleLe);
    SampleOrder();
    SortMembers(b.samples, SampleLe);
    hide Sort, SampleLe;
    var resolved: seq<Assignment> := [];
    for i := 0 to |samples|
      invariant |resolved| == i
      invariant forall j :: 0 <= j < i ==>
        samples[j].fieldSet in fieldSetMap && resolved[j] == Assign(samples[j], fieldSetMap)
    {
      if samples[i].fieldSet !in fieldSetMap {
        assert samples[i] in b.samples;
        return None;
      }
      resolved := resolved + [Assign(samples[i], fieldSetMap)];
    }
    forall k | 0 <= k < |b.samples| ensures b.samples[k].fieldSet in fieldSetMap {
      assert b.samples[k] in samples;
    }
    r := Some(resolved);
  }

  /** One digest.update per line. */
  method FeedLines(lines: seq<string>) returns (content: string)
    ensures content == Terminated(lines, '\n')
  {
    content := "";
    for i := 0 to |lines|
      invariant content == Terminated(lines[..i], '\n')
    {
      assert lines[..i + 1] == lines[..i] + [lines[i]];
      TerminatedAppend(lines[..i], [lines[i]], '\n');
      content := content + lines[i] + "\n";
    }
    assert lines[..|lines|] == lines;
  }

  method PathNormalizedDigests(b: Bundle, root: string, sqlite: Digest, h: Hashes)
    returns (r: Result<Digests, DigestError>)
    ensures r == DigestsOf(b, root, sqlite, h)
  {
    var records := NormalizeRecords(b, Prefix(root), h);
    if records.Err? {
      return Err(records.error);
    }
    var fieldSets := NormalizeFieldSets(b, records.value.digestOf, h);
    if fieldSets.Err? {
      return Err(fieldSets.error);
    }
    var samples := ResolveSamples(b, fieldSets.value.digestOf);
    if samples.None? {
      return Err(MissingFieldSet);
    }
    var content := FeedLines(Lines(Sort(records.value.digests, StringLe), Sort(fieldSets.value.digests, StringLe),
                                   samples.value));
    var provenance := h.text(content);
    r := Ok(Digests(provenance, h.text(CanonicalText(provenance, sqlite))));
  }
}
