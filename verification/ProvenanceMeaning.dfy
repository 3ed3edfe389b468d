/**
 What equal provenance digests mean for two bundles and their data roots, in terms of source texts,
 field names and references alone: the same data, up to the root it lies under.
 */
module ProvenanceMeaning {
  import opened Wrappers
  import opened Sorting
  import opened Separated
  import opened Mapping
  import opened ProvenanceDigest
  import opened ProvenanceRelocation

  const SCHEME := "dataset://"

  // ------------------------------------------------------------------
  // Sources
  // ------------------------------------------------------------------

  /** One file below the two roots, one text outside both, or a file and the text that its normal form happens to be. */
  ghost predicate SameSource(s: string, prefix: string, t: string, prefix2: string) {
    || (exists x :: s == prefix + x && t == prefix2 + x)
    || (s == t && !(prefix <= s) && !(prefix2 <= t))
    || (exists x :: s == prefix + x && t == SCHEME + x)
    || (exists x :: s == SCHEME + x && t == prefix2 + x)
  }

  /** A source is refused exactly when it is absolute and not below the root. */
  lemma RefusedExact(s: string, prefix: string)
    ensures NormalizeSource(s, prefix).None? <==> !(prefix <= s) && s != "" && s[0] == '/'
  {
  }

  /** Below the root the normal form is the scheme and the path from the root; elsewhere it is the source. */
  lemma NormalForm(s: string, prefix: string)
    requires NormalizeSource(s, prefix).Some?
    ensures prefix <= s ==> NormalizeSource(s, prefix).value == SCHEME + s[|prefix|..] && s == prefix + s[|prefix|..]
    ensures !(prefix <= s) ==> NormalizeSource(s, prefix).value == s
  {
  }

  ghost predicate Absolute(prefix: string) {
    prefix != "" && prefix[0] == '/'
  }

  lemma SchemeIsOutside(x: string, prefix: string)
    requires Absolute(prefix)
    ensures !(prefix <= SCHEME + x)
  {
    assert (SCHEME + x)[0] == 'd';
  }

  lemma BelowRoot(x: string, prefix: string)
    ensures prefix <= prefix + x && (prefix + x)[|prefix|..] == x
  {
  }

  /** Two accepted sources normalize alike exactly when they are the same source. */
  lemma SourcesExact(s: string, prefix: string, t: string, prefix2: string)
    requires Absolute(prefix) && Absolute(prefix2)
    requires NormalizeSource(s, prefix).Some? && NormalizeSource(t, prefix2).Some?
    ensures NormalizeSource(s, prefix) == NormalizeSource(t, prefix2) <==> SameSource(s, prefix, t, prefix2)
  {
    NormalForm(s, prefix);
    NormalForm(t, prefix2);
    hide NormalizeSource;
    var x, y := if prefix <= s then s[|prefix|..] else "", if prefix2 <= t then t[|prefix2|..] else "";
    if NormalizeSource(s, prefix) == NormalizeSource(t, prefix2) {
      if prefix <= s && prefix2 <= t { SameTail(SCHEME, x, y); }
    }
    if SameSource(s, prefix, t, prefix2) {
      if z :| s == prefix + z && t == prefix2 + z {
        BelowRoot(z, prefix);
        BelowRoot(z, prefix2);
      } else if z :| s == prefix + z && t == SCHEME + z {
        BelowRoot(z, prefix);
        SchemeIsOutside(z, prefix2);
      } else if z :| s == SCHEME + z && t == prefix2 + z {
        BelowRoot(z, prefix2);
        SchemeIsOutside(z, prefix);
      }
    }
  }

  lemma SameTail(front: string, x: string, y: string)
    requires front + x == front + y
    ensures x == y
  {
    assert (front + x)[|front|..] == x && (front + y)[|front|..] == y;
  }

  /** Under one root two accepted sources normalize alike exactly when equal, or one is the other's normal form. */
  lemma CollisionExact(s: string, t: string, prefix: string)
    requires Absolute(prefix) && NormalizeSource(s, prefix).Some? && NormalizeSource(t, prefix).Some?
    ensures NormalizeSource(s, prefix) == NormalizeSource(t, prefix) <==>
            || s == t
            || (exists x :: s == prefix + x && t == SCHEME + x)
            || (exists x :: s == SCHEME + x && t == prefix + x)
  {
    SourcesExact(s, prefix, t, prefix);
    if s == t && prefix <= s {
      var x := s[|prefix|..];
      assert s == prefix + x;
    }
  }

  /** A file below the root and a source text that normalize alike. */
  lemma SourcesCollide()
    ensures NormalizeSource("/d/a", "/d/") == NormalizeSource("dataset://a", "/d/") == Some("dataset://a")
  {
    var prefix, path := "/d/", "a";
    BelowRoot(path, prefix);
    SchemeIsOutside(path, prefix);
    assert prefix + path == "/d/a" && SCHEME + path == "dataset://a";
    assert (SCHEME + path)[0] == 'd';
  }

  /** However many slashes end the data root, the prefix has one. */
  lemma {:induction false} PrefixExact(base: string, n: nat)
    requires base == "" || base[|base| - 1] != '/'
    ensures Prefix(base + Slashes(n)) == base + "/"
  {
    if n > 0 {
      var root := base + Slashes(n);
      assert root[|root| - 1] == '/' && root[..|root| - 1] == base + Slashes(n - 1);
      PrefixExact(base, n - 1);
    } else {
      assert base + "" == base;
    }
  }

  // ------------------------------------------------------------------
  // Records
  // ------------------------------------------------------------------

  /** The same sources one by one, and the same other members. */
  ghost predicate SameRecord(r: Record, prefix: string, r2: Record, prefix2: string) {
    && r.rest == r2.rest && |r.sources| == |r2.sources|
    && forall i :: 0 <= i < |r.sources| ==> SameSource(r.sources[i], prefix, r2.sources[i], prefix2)
  }

  lemma RecordsExact(r: Record, prefix: string, r2: Record, prefix2: string)
    requires Absolute(prefix) && Absolute(prefix2) && Contained(r.sources, prefix) && Contained(r2.sources, prefix2)
    ensures Normalize(r, prefix) == Normalize(r2, prefix2) <==> SameRecord(r, prefix, r2, prefix2)
  {
    var n, n2 := Normalize(r, prefix), Normalize(r2, prefix2);
    assert |n.sources| == |r.sources| && |n2.sources| == |r2.sources| && n.rest == r.rest && n2.rest == r2.rest;
    assert forall i :: 0 <= i < |r.sources| ==> n.sources[i] == NormalizeSource(r.sources[i], prefix).value;
    assert forall i :: 0 <= i < |r2.sources| ==> n2.sources[i] == NormalizeSource(r2.sources[i], prefix2).value;
    hide NormalizeSource, SameSource, Normalize;
    forall i | 0 <= i < |r.sources| && |r.sources| == |r2.sources|
      ensures n.sources[i] == n2.sources[i] <==> SameSource(r.sources[i], prefix, r2.sources[i], prefix2)
    {
      SourcesExact(r.sources[i], prefix, r2.sources[i], prefix2);
    }
    if SameRecord(r, prefix, r2, prefix2) {
      assert n.sources == n2.sources;
    }
  }

  // ------------------------------------------------------------------
  // Lists up to order
  // ------------------------------------------------------------------

  /** b can be put in an order in which it matches a one by one. */
  ghost predicate Matches<S(!new), T(!new)>(a: seq<S>, b: seq<T>, same: (S, T) -> bool) {
    exists q: seq<T> :: multiset(q) == multiset(b) && Pairwise(a, q, same)
  }

  ghost predicate Pairwise<S, T>(a: seq<S>, q: seq<T>, same: (S, T) -> bool) {
    |q| == |a| && forall i :: 0 <= i < |a| ==> same(a[i], q[i])
  }

  /** The first of a has a partner in b; without the two, the images still agree. */
  lemma Partner<S(!new), T(!new), U(!new)>(f: S -> U, a: seq<S>, g: T -> U, b: seq<T>) returns (i: nat)
    requires a != [] && multiset(Map(f, a)) == multiset(Map(g, b))
    ensures i < |b| && f(a[0]) == g(b[i])
    ensures multiset(Map(f, a[1..])) == multiset(Map(g, Without(b, i)))
  {
    assert Map(f, a)[0] in multiset(Map(g, b));
    i :| 0 <= i < |b| && Map(g, b)[i] == f(a[0]);
    assert f(a[0]) == g(b[i]) && Without(a, 0) == a[1..];
    hide Map, Without;
    MapOut(f, a, 0);
    MapOut(g, b, i);
  }

  lemma PutBack<T>(b: seq<T>, i: nat, rest: seq<T>)
    requires i < |b| && multiset(rest) == multiset(Without(b, i))
    ensures multiset([b[i]] + rest) == multiset(b)
  {
    TakeOut(b, i);
    assert b[i] in multiset(b);
  }

  lemma {:induction false} Align<S(!new), T(!new), U(!new)>(f: S -> U, a: seq<S>, g: T -> U, b: seq<T>)
    returns (q: seq<T>)
    requires multiset(Map(f, a)) == multiset(Map(g, b))
    ensures multiset(q) == multiset(b) && |q| == |a| && forall i :: 0 <= i < |a| ==> f(a[i]) == g(q[i])
    decreases |a|
  {
    if a == [] {
      assert |multiset(Map(g, b))| == 0;
      q := [];
    } else {
      hide Map, Without;
      var i := Partner(f, a, g, b);
      var rest := Align(f, a[1..], g, Without(b, i));
      PutBack(b, i, rest);
      q := [b[i]] + rest;
      forall j | 0 <= j < |a| ensures f(a[j]) == g(q[j]) {
        if j > 0 { assert q[j] == rest[j - 1] && a[j] == a[1..][j - 1]; }
      }
    }
  }

  lemma MatchesExact<S(!new), T(!new), U(!new)>(f: S -> U, a: seq<S>, g: T -> U, b: seq<T>, same: (S, T) -> bool)
    requires forall x, y :: x in a && y in b ==> (same(x, y) <==> f(x) == g(y))
    ensures multiset(Map(f, a)) == multiset(Map(g, b)) <==> Matches(a, b, same)
  {
    if multiset(Map(f, a)) == multiset(Map(g, b)) {
      var q := Align(f, a, g, b);
      forall i | 0 <= i < |a| ensures same(a[i], q[i]) { InReordered(q, b, i); }
      assert Pairwise(a, q, same);
    }
    if Matches(a, b, same) {
      var q :| multiset(q) == multiset(b) && Pairwise(a, q, same);
      forall i | 0 <= i < |a| ensures Map(f, a)[i] == Map(g, q)[i] { InReordered(q, b, i); }
      assert Map(f, a) == Map(g, q);
      MapForgetsOrder(g, q, b);
    }
  }

  lemma InReordered<T>(q: seq<T>, b: seq<T>, i: nat)
    requires multiset(q) == multiset(b) && i < |q|
    ensures q[i] in b
  {
    assert q[i] in multiset(q);
    assert q[i] in multiset(b);
  }

  // ------------------------------------------------------------------
  // References
  // ------------------------------------------------------------------

  /** The exact hash names the record in the bundle. */
  ghost predicate NamesRecord(b: Bundle, sha: Digest, r: Record) {
    exists i :: 0 <= i < |b.records| && b.records[i] == RecordEntry(sha, r)
  }

  ghost predicate NamesFields(b: Bundle, sha: Digest, fields: map<string, Option<Digest>>) {
    exists i :: 0 <= i < |b.fieldSets| && b.fieldSets[i] == FieldSetEntry(sha, fields)
  }

  /** Two bundles, each with the data root it was made under. */
  datatype Side = Side(bundle: Bundle, root: string)

  /** The two hashes name the same record. */
  ghost predicate SameReference(a: Side, sha: Digest, b: Side, sha2: Digest) {
    exists r, r2 :: NamesRecord(a.bundle, sha, r) && NamesRecord(b.bundle, sha2, r2)
                    && SameRecord(r, Prefix(a.root), r2, Prefix(b.root))
  }

  /** The same field names, each with a reference to the same record. */
  ghost predicate SameFields(a: Side, fields: map<string, Option<Digest>>,
                             b: Side, fields2: map<string, Option<Digest>>) {
    && fields.Keys == fields2.Keys
    && forall name :: name in fields ==>
         fields[name].Some? && fields2[name].Some? && SameReference(a, fields[name].value, b, fields2[name].value)
  }

  /** The same particle and sample number, and a reference to the same field set. */
  ghost predicate SameSample(a: Side, s: Sample, b: Side, s2: Sample) {
    && s.particle == s2.particle && s.sequence == s2.sequence
    && exists f, f2 :: NamesFields(a.bundle, s.fieldSet, f) && NamesFields(b.bundle, s2.fieldSet, f2)
                       && SameFields(a, f, b, f2)
  }

  /** The same records, field sets and samples, up to the order of the lists and the exact hashes. */
  ghost predicate SameBundle(a: Side, b: Side) {
    && Matches(a.bundle.records, b.bundle.records,
               (e: RecordEntry, e2: RecordEntry) => SameRecord(e.record, Prefix(a.root), e2.record, Prefix(b.root)))
    && Matches(a.bundle.fieldSets, b.bundle.fieldSets,
               (e: FieldSetEntry, e2: FieldSetEntry) => SameFields(a, e.fields, b, e2.fields))
    && Matches(a.bundle.samples, b.bundle.samples, (s: Sample, s2: Sample) => SameSample(a, s, b, s2))
  }

  // ------------------------------------------------------------------
  // What the loops hold when they are done
  // ------------------------------------------------------------------

  /** The two dictionaries of an accepted bundle. */
  function RecordTable(a: Side, h: Hashes): map<Digest, Digest> {
    match Fold(RecordItems(a.bundle, Prefix(a.root), h), EscapesRoot, DuplicateRecord)
    case Err(_) => map[]
    case Ok(seen) => seen.digestOf
  }

  function FieldSetTable(a: Side, h: Hashes): map<Digest, Digest> {
    match Fold(FieldSetItems(a.bundle, RecordTable(a, h), h), MissingRecord, DuplicateFieldSet)
    case Err(_) => map[]
    case Ok(seen) => seen.digestOf
  }

  ghost predicate Accepted(a: Side, h: Hashes) {
    ContentOf(a.bundle, a.root, h).Ok? && Absolute(Prefix(a.root))
  }

  lemma TableFacts(items: seq<Item>, u: DigestError, d: DigestError)
    requires Fold(items, u, d).Ok?
    ensures var table := Fold(items, u, d).value.digestOf;
            && (forall i :: 0 <= i < |items| ==>
                  items[i].digest.Some? && items[i].sha in table && table[items[i].sha] == items[i].digest.value)
            && forall x :: x in table ==> exists i :: 0 <= i < |items| && items[i].sha == x
  {
    FoldExact(items, u, d);
    forall x | x in Fold(items, u, d).value.digestOf ensures exists i :: 0 <= i < |items| && items[i].sha == x {
      var i :| 0 <= i < |items| && Map(ShaOf, items)[i] == x;
    }
  }

  lemma LoopsDone(a: Side, h: Hashes)
    requires Accepted(a, h)
    ensures var r := Fold(RecordItems(a.bundle, Prefix(a.root), h), EscapesRoot, DuplicateRecord);
            r.Ok? && r.value.digestOf == RecordTable(a, h)
    ensures var f := Fold(FieldSetItems(a.bundle, RecordTable(a, h), h), MissingRecord, DuplicateFieldSet);
            f.Ok? && f.value.digestOf == FieldSetTable(a, h)
    ensures forall i :: 0 <= i < |a.bundle.samples| ==> a.bundle.samples[i].fieldSet in FieldSetTable(a, h)
  {
    hide Fold, RecordItems, FieldSetItems, Prefix, Sort, SampleLe, StringLe;
  }

  lemma RecordAt(a: Side, h: Hashes, i: nat)
    requires Accepted(a, h) && i < |a.bundle.records|
    ensures var e := a.bundle.records[i];
            && Contained(e.record.sources, Prefix(a.root)) && e.sha in RecordTable(a, h)
            && RecordTable(a, h)[e.sha] == h.record(Normalize(e.record, Prefix(a.root)))
  {
    LoopsDone(a, h);
    hide Fold, RecordTable, Accepted, Contained, Normalize;
    var items := RecordItems(a.bundle, Prefix(a.root), h);
    TableFacts(items, EscapesRoot, DuplicateRecord);
    assert items[i] == RecordItem(a.bundle.records[i], Prefix(a.root), h);
  }

  lemma RecordNamed(a: Side, h: Hashes, sha: Digest) returns (r: Record)
    requires Accepted(a, h) && sha in RecordTable(a, h)
    ensures NamesRecord(a.bundle, sha, r)
  {
    LoopsDone(a, h);
    hide Fold, RecordTable, Accepted;
    var items := RecordItems(a.bundle, Prefix(a.root), h);
    TableFacts(items, EscapesRoot, DuplicateRecord);
    var i :| 0 <= i < |items| && items[i].sha == sha;
    r := a.bundle.records[i].record;
    assert a.bundle.records[i] == RecordEntry(sha, r);
  }

  lemma NamedRecord(a: Side, h: Hashes, sha: Digest, r: Record)
    requires Accepted(a, h) && NamesRecord(a.bundle, sha, r)
    ensures Contained(r.sources, Prefix(a.root)) && sha in RecordTable(a, h)
    ensures RecordTable(a, h)[sha] == h.record(Normalize(r, Prefix(a.root)))
  {
    hide Accepted, RecordTable;
    var i :| 0 <= i < |a.bundle.records| && a.bundle.records[i] == RecordEntry(sha, r);
    RecordAt(a, h, i);
  }

  lemma FieldSetAt(a: Side, h: Hashes, i: nat)
    requires Accepted(a, h) && i < |a.bundle.fieldSets|
    ensures var e := a.bundle.fieldSets[i];
            && Resolvable(e.fields, RecordTable(a, h)) && e.sha in FieldSetTable(a, h)
            && FieldSetTable(a, h)[e.sha] == h.fields(ResolveFields(e.fields, RecordTable(a, h)))
  {
    LoopsDone(a, h);
    hide Fold, RecordTable, FieldSetTable, Accepted, Resolvable, ResolveFields;
    var items := FieldSetItems(a.bundle, RecordTable(a, h), h);
    TableFacts(items, MissingRecord, DuplicateFieldSet);
    assert items[i] == FieldSetItem(a.bundle.fieldSets[i], RecordTable(a, h), h);
  }

  lemma FieldSetNamed(a: Side, h: Hashes, sha: Digest) returns (f: map<string, Option<Digest>>)
    requires Accepted(a, h) && sha in FieldSetTable(a, h)
    ensures NamesFields(a.bundle, sha, f)
  {
    LoopsDone(a, h);
    hide Fold, RecordTable, FieldSetTable, Accepted;
    var items := FieldSetItems(a.bundle, RecordTable(a, h), h);
    TableFacts(items, MissingRecord, DuplicateFieldSet);
    var i :| 0 <= i < |items| && items[i].sha == sha;
    f := a.bundle.fieldSets[i].fields;
    assert a.bundle.fieldSets[i] == FieldSetEntry(sha, f);
  }

  lemma NamedFieldSet(a: Side, h: Hashes, sha: Digest, f: map<string, Option<Digest>>)
    requires Accepted(a, h) && NamesFields(a.bundle, sha, f)
    ensures Resolvable(f, RecordTable(a, h)) && sha in FieldSetTable(a, h)
    ensures FieldSetTable(a, h)[sha] == h.fields(ResolveFields(f, RecordTable(a, h)))
  {
    hide Accepted, RecordTable, FieldSetTable, Resolvable;
    var i :| 0 <= i < |a.bundle.fieldSets| && a.bundle.fieldSets[i] == FieldSetEntry(sha, f);
    FieldSetAt(a, h, i);
  }

  // ------------------------------------------------------------------
  // When there are digests at all
  // ------------------------------------------------------------------

  /** Some record has a source that is absolute and not below the root. */
  ghost predicate SourceEscapes(a: Side) {
    exists i, j :: 0 <= i < |a.bundle.records| && 0 <= j < |a.bundle.records[i].record.sources|
                   && Escapes(a.bundle.records[i].record.sources[j], Prefix(a.root))
  }

  ghost predicate Escapes(s: string, prefix: string) {
    !(prefix <= s) && s != "" && s[0] == '/'
  }

  ghost predicate RepeatsRecord(b: Bundle) {
    exists i, j :: 0 <= i < j < |b.records| && b.records[i].sha == b.records[j].sha
  }

  ghost predicate RepeatsFieldSet(b: Bundle) {
    exists i, j :: 0 <= i < j < |b.fieldSets| && b.fieldSets[i].sha == b.fieldSets[j].sha
  }

  /** Some field of some field set is null or names no record. */
  ghost predicate RecordIsMissing(b: Bundle) {
    exists i :: 0 <= i < |b.fieldSets| && MissesRecord(b.fieldSets[i].fields, b)
  }

  ghost predicate MissesRecord(fields: map<string, Option<Digest>>, b: Bundle) {
    exists name :: name in fields
      && (fields[name].None? || forall k :: 0 <= k < |b.records| ==> b.records[k].sha != fields[name].value)
  }

  ghost predicate FieldSetIsMissing(b: Bundle) {
    exists i :: 0 <= i < |b.samples|
                && forall k :: 0 <= k < |b.fieldSets| ==> b.fieldSets[k].sha != b.samples[i].fieldSet
  }

  lemma FoldFails(items: seq<Item>, u: DigestError, d: DigestError)
    requires u != d
    ensures var r := Fold(items, u, d);
            && (r.Ok? <==> (forall i :: 0 <= i < |items| ==> items[i].digest.Some?) && !RepeatsSha(items))
            && (r.Err? ==> (r.error == u && exists i :: 0 <= i < |items| && items[i].digest.None?)
                           || (r.error == d && RepeatsSha(items)))
  {
    FoldExact(items, u, d);
    DistinctIndices(Map(ShaOf, items));
    FirstFailure(items, u, d);
  }

  ghost predicate RepeatsSha(items: seq<Item>) {
    exists i, j :: 0 <= i < j < |items| && Map(ShaOf, items)[i] == Map(ShaOf, items)[j]
  }

  lemma RepeatsGrow(before: seq<Item>, item: Item)
    ensures RepeatsSha(before) ==> RepeatsSha(before + [item])
    ensures item.sha in Map(ShaOf, before) ==> RepeatsSha(before + [item])
    ensures (exists i :: 0 <= i < |before| && before[i].digest.None?) ==>
              exists i :: 0 <= i < |before + [item]| && (before + [item])[i].digest.None?
  {
    var items := before + [item];
    assert forall i :: 0 <= i < |before| ==> items[i] == before[i] && Map(ShaOf, items)[i] == Map(ShaOf, before)[i];
    assert Map(ShaOf, items)[|before|] == item.sha;
    if RepeatsSha(before) {
      var i, j :| 0 <= i < j < |before| && Map(ShaOf, before)[i] == Map(ShaOf, before)[j];
      assert Map(ShaOf, items)[i] == Map(ShaOf, items)[j];
    }
    if item.sha in Map(ShaOf, before) {
      var i :| 0 <= i < |before| && Map(ShaOf, before)[i] == item.sha;
      assert Map(ShaOf, items)[i] == Map(ShaOf, items)[|before|];
    }
    if i :| 0 <= i < |before| && before[i].digest.None? { assert items[i].digest.None?; }
  }

  lemma {:induction false} FirstFailure(items: seq<Item>, u: DigestError, d: DigestError)
    ensures var r := Fold(items, u, d);
            r.Err? ==> (r.error == u && exists i :: 0 <= i < |items| && items[i].digest.None?)
                       || (r.error == d && RepeatsSha(items))
  {
    if items != [] {
      var before, item := items[..|items| - 1], items[|items| - 1];
      assert items == before + [item] && items[|items| - 1] == item;
      FirstFailure(before, u, d);
      FoldExact(before, u, d);
      RepeatsGrow(before, item);
      hide RepeatsSha, Foldable, Map;
      assert item.digest.None? ==> items[|items| - 1].digest.None?;
    }
  }

  lemma RecordLoop(a: Side, h: Hashes)
    ensures var r := Fold(RecordItems(a.bundle, Prefix(a.root), h), EscapesRoot, DuplicateRecord);
            && (r.Ok? <==> !SourceEscapes(a) && !RepeatsRecord(a.bundle))
            && (r.Err? ==> (r.error == EscapesRoot && SourceEscapes(a))
                           || (r.error == DuplicateRecord && RepeatsRecord(a.bundle)))
  {
    var items, prefix := RecordItems(a.bundle, Prefix(a.root), h), Prefix(a.root);
    FoldFails(items, EscapesRoot, DuplicateRecord);
    assert forall i :: 0 <= i < |items| ==>
      Map(ShaOf, items)[i] == a.bundle.records[i].sha
      && (items[i].digest.Some? <==> Contained(a.bundle.records[i].record.sources, prefix));
    hide Fold, RecordItems, Contained, NormalizeSource, Prefix;
    forall i | 0 <= i < |items|
      ensures var sources := a.bundle.records[i].record.sources;
              items[i].digest.None? <==> exists j :: 0 <= j < |sources| && Escapes(sources[j], prefix)
    {
      EscapesExact(a.bundle.records[i].record.sources, prefix);
    }
    if RepeatsRecord(a.bundle) {
      var i, j :| 0 <= i < j < |items| && a.bundle.records[i].sha == a.bundle.records[j].sha;
      assert Map(ShaOf, items)[i] == Map(ShaOf, items)[j];
    }
  }

  lemma EscapesExact(sources: seq<string>, prefix: string)
    ensures !Contained(sources, prefix) <==> exists j :: 0 <= j < |sources| && Escapes(sources[j], prefix)
  {
    forall j | 0 <= j < |sources| ensures NormalizeSource(sources[j], prefix).None? <==> Escapes(sources[j], prefix) {
      RefusedExact(sources[j], prefix);
    }
  }

  lemma RecordTableKeys(a: Side, h: Hashes)
    requires Fold(RecordItems(a.bundle, Prefix(a.root), h), EscapesRoot, DuplicateRecord).Ok?
    ensures forall x :: x in RecordTable(a, h) <==>
              exists k :: 0 <= k < |a.bundle.records| && a.bundle.records[k].sha == x
  {
    var items := RecordItems(a.bundle, Prefix(a.root), h);
    TableFacts(items, EscapesRoot, DuplicateRecord);
    assert forall k :: 0 <= k < |items| ==> items[k].sha == a.bundle.records[k].sha;
    hide Fold, RecordItems, Prefix;
    forall x
      ensures x in RecordTable(a, h) <==> exists k :: 0 <= k < |a.bundle.records| && a.bundle.records[k].sha == x
    {
      if k :| 0 <= k < |a.bundle.records| && a.bundle.records[k].sha == x { assert items[k].sha == x; }
    }
  }

  lemma FieldSetTableKeys(a: Side, h: Hashes)
    requires Fold(FieldSetItems(a.bundle, RecordTable(a, h), h), MissingRecord, DuplicateFieldSet).Ok?
    ensures forall x :: x in FieldSetTable(a, h) <==>
              exists k :: 0 <= k < |a.bundle.fieldSets| && a.bundle.fieldSets[k].sha == x
  {
    var items := FieldSetItems(a.bundle, RecordTable(a, h), h);
    TableFacts(items, MissingRecord, DuplicateFieldSet);
    assert forall k :: 0 <= k < |items| ==> items[k].sha == a.bundle.fieldSets[k].sha;
    hide Fold, FieldSetItems, RecordTable;
    forall x
      ensures x in FieldSetTable(a, h) <==> exists k :: 0 <= k < |a.bundle.fieldSets| && a.bundle.fieldSets[k].sha == x
    {
      if k :| 0 <= k < |a.bundle.fieldSets| && a.bundle.fieldSets[k].sha == x { assert items[k].sha == x; }
    }
  }

  lemma FieldSetLoop(a: Side, h: Hashes)
    requires Fold(RecordItems(a.bundle, Prefix(a.root), h), EscapesRoot, DuplicateRecord).Ok?
    ensures var r := Fold(FieldSetItems(a.bundle, RecordTable(a, h), h), MissingRecord, DuplicateFieldSet);
            && (r.Ok? <==> !RecordIsMissing(a.bundle) && !RepeatsFieldSet(a.bundle))
            && (r.Err? ==> (r.error == MissingRecord && RecordIsMissing(a.bundle))
                           || (r.error == DuplicateFieldSet && RepeatsFieldSet(a.bundle)))
  {
    var items, table, sets := FieldSetItems(a.bundle, RecordTable(a, h), h), RecordTable(a, h), a.bundle.fieldSets;
    FoldFails(items, MissingRecord, DuplicateFieldSet);
    RecordTableKeys(a, h);
    assert forall i :: 0 <= i < |items| ==>
      Map(ShaOf, items)[i] == sets[i].sha && (items[i].digest.Some? <==> Resolvable(sets[i].fields, table));
    forall i | 0 <= i < |items| ensures items[i].digest.None? <==> MissesRecord(sets[i].fields, a.bundle) {
      MissesExact(sets[i].fields, table, a.bundle);
    }
    hide Fold, RecordItems, FieldSetItems, RecordTable, Prefix, Map, MissesRecord, Resolvable;
    if RepeatsFieldSet(a.bundle) {
      var i, j :| 0 <= i < j < |items| && sets[i].sha == sets[j].sha;
      assert Map(ShaOf, items)[i] == Map(ShaOf, items)[j];
    }
    if RecordIsMissing(a.bundle) {
      var i :| 0 <= i < |sets| && MissesRecord(sets[i].fields, a.bundle);
      assert items[i].digest.None?;
    }
    if i :| 0 <= i < |items| && items[i].digest.None? { assert MissesRecord(sets[i].fields, a.bundle); }
  }

  lemma MissesExact(fields: map<string, Option<Digest>>, table: map<Digest, Digest>, b: Bundle)
    requires forall x :: x in table <==> exists k :: 0 <= k < |b.records| && b.records[k].sha == x
    ensures !Resolvable(fields, table) <==> MissesRecord(fields, b)
  {
    if !Resolvable(fields, table) {
      var name :| name in fields && (fields[name].None? || fields[name].value !in table);
      assert fields[name].None? || forall k :: 0 <= k < |b.records| ==> b.records[k].sha != fields[name].value;
    }
    if MissesRecord(fields, b) {
      var name :| name in fields
        && (fields[name].None? || forall k :: 0 <= k < |b.records| ==> b.records[k].sha != fields[name].value);
      assert fields[name].None? || fields[name].value !in table;
    }
  }

  /** The reason of a refusal is true of the bundle. */
  ghost predicate Reason(a: Side, error: DigestError) {
    match error
    case EscapesRoot => SourceEscapes(a)
    case DuplicateRecord => RepeatsRecord(a.bundle)
    case MissingRecord => RecordIsMissing(a.bundle)
    case DuplicateFieldSet => RepeatsFieldSet(a.bundle)
    case MissingFieldSet => FieldSetIsMissing(a.bundle)
  }

  /** The two loops, then the samples. */
  lemma DigestCases(a: Side, sqlite: Digest, h: Hashes)
    ensures var r := Fold(RecordItems(a.bundle, Prefix(a.root), h), EscapesRoot, DuplicateRecord);
            var f := Fold(FieldSetItems(a.bundle, RecordTable(a, h), h), MissingRecord, DuplicateFieldSet);
            var d := DigestsOf(a.bundle, a.root, sqlite, h);
            var lost := exists i :: 0 <= i < |a.bundle.samples| && a.bundle.samples[i].fieldSet !in FieldSetTable(a, h);
            if r.Err? then d == Err(r.error)
            else if f.Err? then d == Err(f.error)
            else if lost then d == Err(MissingFieldSet)
            else d.Ok?
  {
    hide RecordItems, FieldSetItems, Fold, Prefix, Sort, StringLe, SampleLe, Lines, CanonicalText, Terminated, Map,
         Assign;
  }

  lemma LostSamples(a: Side, h: Hashes)
    requires Fold(FieldSetItems(a.bundle, RecordTable(a, h), h), MissingRecord, DuplicateFieldSet).Ok?
    ensures FieldSetIsMissing(a.bundle) <==>
            exists i :: 0 <= i < |a.bundle.samples| && a.bundle.samples[i].fieldSet !in FieldSetTable(a, h)
  {
    FieldSetTableKeys(a, h);
    hide Fold, FieldSetItems, RecordTable, FieldSetTable;
    var samples, sets := a.bundle.samples, a.bundle.fieldSets;
    if FieldSetIsMissing(a.bundle) {
      var i :| 0 <= i < |samples| && forall k :: 0 <= k < |sets| ==> sets[k].sha != samples[i].fieldSet;
      assert samples[i].fieldSet !in FieldSetTable(a, h);
    }
    if i :| 0 <= i < |samples| && samples[i].fieldSet !in FieldSetTable(a, h) {
      assert forall k :: 0 <= k < |sets| ==> sets[k].sha != samples[i].fieldSet;
    }
  }

  /** There are digests exactly when none of the five reasons to refuse applies, and a refusal names one that does. */
  lemma DigestsExist(a: Side, sqlite: Digest, h: Hashes)
    ensures DigestsOf(a.bundle, a.root, sqlite, h).Ok? <==> forall e :: !Reason(a, e)
    ensures DigestsOf(a.bundle, a.root, sqlite, h).Err? ==> Reason(a, DigestsOf(a.bundle, a.root, sqlite, h).error)
  {
    hide RecordItems, FieldSetItems, Fold, Prefix, SourceEscapes, RepeatsRecord, RecordIsMissing, RepeatsFieldSet,
         FieldSetIsMissing, DigestsOf, RecordTable, FieldSetTable;
    DigestCases(a, sqlite, h);
    RecordLoop(a, h);
    if Fold(RecordItems(a.bundle, Prefix(a.root), h), EscapesRoot, DuplicateRecord).Ok? {
      FieldSetLoop(a, h);
      if Fold(FieldSetItems(a.bundle, RecordTable(a, h), h), MissingRecord, DuplicateFieldSet).Ok? {
        LostSamples(a, h);
      }
    }
    ReasonsAre(a);
  }

  lemma ReasonsAre(a: Side)
    ensures (forall e :: !Reason(a, e)) <==>
            !SourceEscapes(a) && !RepeatsRecord(a.bundle) && !RecordIsMissing(a.bundle) && !RepeatsFieldSet(a.bundle)
            && !FieldSetIsMissing(a.bundle)
  {
    hide SourceEscapes, RepeatsRecord, RecordIsMissing, RepeatsFieldSet, FieldSetIsMissing;
    assert Reason(a, EscapesRoot) <==> SourceEscapes(a);
    assert Reason(a, DuplicateRecord) <==> RepeatsRecord(a.bundle);
    assert Reason(a, MissingRecord) <==> RecordIsMissing(a.bundle);
    assert Reason(a, DuplicateFieldSet) <==> RepeatsFieldSet(a.bundle);
    assert Reason(a, MissingFieldSet) <==> FieldSetIsMissing(a.bundle);
  }

  // ------------------------------------------------------------------
  // Equal hashes, equal meaning
  // ------------------------------------------------------------------

  lemma ReferencesExact(a: Side, sha: Digest, b: Side, sha2: Digest, h: Hashes)
    requires Accepted(a, h) && Accepted(b, h) && HexHash(h) && sha in RecordTable(a, h) && sha2 in RecordTable(b, h)
    ensures RecordTable(a, h)[sha] == RecordTable(b, h)[sha2] <==> SameReference(a, sha, b, sha2)
  {
    hide RecordTable, NamesRecord, Normalize, SameRecord, Contained, Accepted, Prefix, HexHash;
    var r := RecordNamed(a, h, sha);
    var r2 := RecordNamed(b, h, sha2);
    forall x, y | NamesRecord(a.bundle, sha, x) && NamesRecord(b.bundle, sha2, y)
      ensures RecordTable(a, h)[sha] == RecordTable(b, h)[sha2] <==> SameRecord(x, Prefix(a.root), y, Prefix(b.root))
    {
      NamedRecord(a, h, sha, x);
      NamedRecord(b, h, sha2, y);
      HashedRecords(a, x, b, y, h);
    }
  }

  lemma HashedRecords(a: Side, x: Record, b: Side, y: Record, h: Hashes)
    requires Accepted(a, h) && Accepted(b, h) && HexHash(h)
    requires Contained(x.sources, Prefix(a.root)) && Contained(y.sources, Prefix(b.root))
    ensures h.record(Normalize(x, Prefix(a.root))) == h.record(Normalize(y, Prefix(b.root)))
            <==> SameRecord(x, Prefix(a.root), y, Prefix(b.root))
  {
    hide Normalize, SameRecord, Contained, Prefix, ContentOf;
    RecordsExact(x, Prefix(a.root), y, Prefix(b.root));
  }

  lemma FieldsExact(a: Side, f: map<string, Option<Digest>>, b: Side, f2: map<string, Option<Digest>>, h: Hashes)
    requires Accepted(a, h) && Accepted(b, h) && HexHash(h)
    requires Resolvable(f, RecordTable(a, h)) && Resolvable(f2, RecordTable(b, h))
    ensures ResolveFields(f, RecordTable(a, h)) == ResolveFields(f2, RecordTable(b, h)) <==> SameFields(a, f, b, f2)
  {
    hide Accepted, HexHash, RecordTable, SameReference;
    var t, t2 := ResolveFields(f, RecordTable(a, h)), ResolveFields(f2, RecordTable(b, h));
    assert t.Keys == f.Keys && t2.Keys == f2.Keys;
    forall name | name in f && name in f2
      ensures t[name] == t2[name] <==> SameReference(a, f[name].value, b, f2[name].value)
    {
      ReferencesExact(a, f[name].value, b, f2[name].value, h);
    }
    if SameFields(a, f, b, f2) {
      assert forall name :: name in t ==> name in t2 && t[name] == t2[name];
      assert t == t2;
    }
    if t == t2 {
      assert f.Keys == f2.Keys;
    }
  }

  lemma SamplesExact(a: Side, s: Sample, b: Side, s2: Sample, h: Hashes)
    requires Accepted(a, h) && Accepted(b, h) && HexHash(h)
    requires s.fieldSet in FieldSetTable(a, h) && s2.fieldSet in FieldSetTable(b, h)
    ensures Assign(s, FieldSetTable(a, h)) == Assign(s2, FieldSetTable(b, h)) <==> SameSample(a, s, b, s2)
  {
    hide Accepted, FieldSetTable, RecordTable, NamesFields, Resolvable, ResolveFields, SameFields, HexHash;
    var f := FieldSetNamed(a, h, s.fieldSet);
    var f2 := FieldSetNamed(b, h, s2.fieldSet);
    forall x, y | NamesFields(a.bundle, s.fieldSet, x) && NamesFields(b.bundle, s2.fieldSet, y)
      ensures FieldSetTable(a, h)[s.fieldSet] == FieldSetTable(b, h)[s2.fieldSet] <==> SameFields(a, x, b, y)
    {
      NamedFieldSet(a, h, s.fieldSet, x);
      NamedFieldSet(b, h, s2.fieldSet, y);
      HashedFields(a, x, b, y, h);
    }
  }

  lemma HashedFields(a: Side, x: map<string, Option<Digest>>, b: Side, y: map<string, Option<Digest>>, h: Hashes)
    requires Accepted(a, h) && Accepted(b, h) && HexHash(h)
    requires Resolvable(x, RecordTable(a, h)) && Resolvable(y, RecordTable(b, h))
    ensures h.fields(ResolveFields(x, RecordTable(a, h))) == h.fields(ResolveFields(y, RecordTable(b, h)))
            <==> SameFields(a, x, b, y)
  {
    hide Accepted, RecordTable, Resolvable, ResolveFields, SameFields;
    FieldsExact(a, x, b, y, h);
  }

  // ------------------------------------------------------------------
  // Equal digests, the same bundle
  // ------------------------------------------------------------------

  lemma RecordsMatch(a: Side, b: Side, h: Hashes)
    requires Accepted(a, h) && Accepted(b, h)
    ensures multiset(NormalizedRecords(a.bundle, a.root)) == multiset(NormalizedRecords(b.bundle, b.root)) <==>
            Matches(a.bundle.records, b.bundle.records,
                    (e: RecordEntry, e2: RecordEntry) =>
                      SameRecord(e.record, Prefix(a.root), e2.record, Prefix(b.root)))
  {
    var f := (e: RecordEntry) =>
      if Contained(e.record.sources, Prefix(a.root)) then Normalize(e.record, Prefix(a.root)) else e.record;
    var g := (e: RecordEntry) =>
      if Contained(e.record.sources, Prefix(b.root)) then Normalize(e.record, Prefix(b.root)) else e.record;
    var same := (e: RecordEntry, e2: RecordEntry) => SameRecord(e.record, Prefix(a.root), e2.record, Prefix(b.root));
    hide Accepted, SameRecord, Contained, Normalize, Prefix, Matches;
    forall x, y | x in a.bundle.records && y in b.bundle.records ensures same(x, y) <==> f(x) == g(y) {
      EntriesExact(a, x, b, y, h);
    }
    MatchesExact(f, a.bundle.records, g, b.bundle.records, same);
    assert NormalizedRecords(a.bundle, a.root) == Map(f, a.bundle.records);
    assert NormalizedRecords(b.bundle, b.root) == Map(g, b.bundle.records);
  }

  lemma EntriesExact(a: Side, x: RecordEntry, b: Side, y: RecordEntry, h: Hashes)
    requires Accepted(a, h) && Accepted(b, h) && x in a.bundle.records && y in b.bundle.records
    ensures Contained(x.record.sources, Prefix(a.root)) && Contained(y.record.sources, Prefix(b.root))
    ensures Normalize(x.record, Prefix(a.root)) == Normalize(y.record, Prefix(b.root))
            <==> SameRecord(x.record, Prefix(a.root), y.record, Prefix(b.root))
  {
    var i :| 0 <= i < |a.bundle.records| && a.bundle.records[i] == x;
    var j :| 0 <= j < |b.bundle.records| && b.bundle.records[j] == y;
    RecordAt(a, h, i);
    RecordAt(b, h, j);
    hide ContentOf, Contained, Normalize, SameRecord, Prefix;
    RecordsExact(x.record, Prefix(a.root), y.record, Prefix(b.root));
  }

  lemma FieldSetsMatch(a: Side, b: Side, h: Hashes)
    requires Accepted(a, h) && Accepted(b, h) && HexHash(h)
    ensures multiset(ResolvedFieldSets(a.bundle, a.root, h)) == multiset(ResolvedFieldSets(b.bundle, b.root, h)) <==>
            Matches(a.bundle.fieldSets, b.bundle.fieldSets,
                    (e: FieldSetEntry, e2: FieldSetEntry) => SameFields(a, e.fields, b, e2.fields))
  {
    var t, t2 := RecordTable(a, h), RecordTable(b, h);
    var f := (e: FieldSetEntry) => if Resolvable(e.fields, t) then ResolveFields(e.fields, t) else map[];
    var g := (e: FieldSetEntry) => if Resolvable(e.fields, t2) then ResolveFields(e.fields, t2) else map[];
    var same := (e: FieldSetEntry, e2: FieldSetEntry) => SameFields(a, e.fields, b, e2.fields);
    LoopsDone(a, h);
    LoopsDone(b, h);
    hide Accepted, SameFields, Resolvable, ResolveFields, Matches, RecordTable, Fold, HexHash;
    forall x, y | x in a.bundle.fieldSets && y in b.bundle.fieldSets ensures same(x, y) <==> f(x) == g(y) {
      FieldEntriesExact(a, x, b, y, h);
    }
    MatchesExact(f, a.bundle.fieldSets, g, b.bundle.fieldSets, same);
    assert ResolvedFieldSets(a.bundle, a.root, h) == Map(f, a.bundle.fieldSets);
    assert ResolvedFieldSets(b.bundle, b.root, h) == Map(g, b.bundle.fieldSets);
  }

  lemma FieldEntriesExact(a: Side, x: FieldSetEntry, b: Side, y: FieldSetEntry, h: Hashes)
    requires Accepted(a, h) && Accepted(b, h) && HexHash(h) && x in a.bundle.fieldSets && y in b.bundle.fieldSets
    ensures Resolvable(x.fields, RecordTable(a, h)) && Resolvable(y.fields, RecordTable(b, h))
    ensures ResolveFields(x.fields, RecordTable(a, h)) == ResolveFields(y.fields, RecordTable(b, h))
            <==> SameFields(a, x.fields, b, y.fields)
  {
    hide Accepted, RecordTable, FieldSetTable, HexHash, Resolvable, ResolveFields, SameFields;
    var i :| 0 <= i < |a.bundle.fieldSets| && a.bundle.fieldSets[i] == x;
    var j :| 0 <= j < |b.bundle.fieldSets| && b.bundle.fieldSets[j] == y;
    FieldSetAt(a, h, i);
    FieldSetAt(b, h, j);
    FieldsExact(a, x.fields, b, y.fields, h);
  }

  function AssignBy(table: map<Digest, Digest>): Sample -> Assignment {
    (s: Sample) => Assign(s, table)
  }

  lemma ContentSamples(a: Side, h: Hashes)
    requires Accepted(a, h)
    ensures ContentOf(a.bundle, a.root, h).value.samples
            == Map(AssignBy(FieldSetTable(a, h)), Sort(a.bundle.samples, SampleLe))
  {
    hide Fold, Sort, RecordItems, FieldSetItems, Prefix, StringLe, SampleLe;
  }

  /** The lines come in order: hashes as texts, samples by particle and then by sample number; and no sample is lost. */
  lemma LinesInOrder(a: Side, h: Hashes)
    requires Accepted(a, h)
    ensures var c := ContentOf(a.bundle, a.root, h).value;
            && Sorted(c.records, StringLe) && Sorted(c.fieldSets, StringLe)
            && (forall i, j :: 0 <= i < j < |c.samples| ==>
                  c.samples[i].particle < c.samples[j].particle
                  || (c.samples[i].particle == c.samples[j].particle && c.samples[i].sequence <= c.samples[j].sequence))
            && multiset(Map((x: Assignment) => (x.particle, x.sequence), c.samples))
               == multiset(Map((s: Sample) => (s.particle, s.sequence), a.bundle.samples))
  {
    ContentIsHashed(a.bundle, a.root, h);
    ContentSamples(a, h);
    SamplesSorted(a.bundle, FieldSetTable(a, h));
    SampleOrder();
    SortSorts(a.bundle.samples, SampleLe);
    var c := ContentOf(a.bundle, a.root, h).value;
    var sorted, key := Sort(a.bundle.samples, SampleLe), (s: Sample) => (s.particle, s.sequence);
    assert c.samples == Map((s: Sample) => Assign(s, FieldSetTable(a, h)), sorted);
    hide ContentOf, FieldSetTable, Accepted, Sort, SampleLe, StringLe;
    assert Map((x: Assignment) => (x.particle, x.sequence), c.samples) == Map(key, sorted);
    MapForgetsOrder(key, sorted, a.bundle.samples);
    OrderOfAssignments(c.samples);
  }

  lemma OrderOfAssignments(samples: seq<Assignment>)
    requires Sorted(samples, AssignmentLe)
    ensures forall i, j :: 0 <= i < j < |samples| ==>
              samples[i].particle < samples[j].particle
              || (samples[i].particle == samples[j].particle && samples[i].sequence <= samples[j].sequence)
  {
    assert forall i, j :: 0 <= i < j < |samples| ==> AssignmentLe(samples[i], samples[j]);
  }

  /** The sorted assignments of distinct samples are determined by the assignments as a multiset. */
  lemma SortedAssignments(a: Side, b: Side, h: Hashes)
    requires Accepted(a, h) && Accepted(b, h) && DistinctSamples(a.bundle)
    ensures ContentOf(a.bundle, a.root, h).value.samples == ContentOf(b.bundle, b.root, h).value.samples <==>
            multiset(Map(AssignBy(FieldSetTable(a, h)), a.bundle.samples))
            == multiset(Map(AssignBy(FieldSetTable(b, h)), b.bundle.samples))
  {
    var t, t2 := FieldSetTable(a, h), FieldSetTable(b, h);
    ContentSamples(a, h);
    ContentSamples(b, h);
    SamplesSorted(a.bundle, t);
    SamplesSorted(b.bundle, t2);
    var one := Map(AssignBy(t), Sort(a.bundle.samples, SampleLe));
    var two := Map(AssignBy(t2), Sort(b.bundle.samples, SampleLe));
    assert one == Map((s: Sample) => Assign(s, t), Sort(a.bundle.samples, SampleLe));
    assert two == Map((s: Sample) => Assign(s, t2), Sort(b.bundle.samples, SampleLe));
    assert Map(AssignBy(t), a.bundle.samples) == Map((s: Sample) => Assign(s, t), a.bundle.samples);
    assert Map(AssignBy(t2), b.bundle.samples) == Map((s: Sample) => Assign(s, t2), b.bundle.samples);
    hide Sort, Sorted, Assign, Accepted, ContentOf, NoTies, DistinctSamples, SampleLe, AssignmentLe;
    if multiset(one) == multiset(two) {
      AssignmentsNoTies(a.bundle, t, one);
      AssignmentOrder();
      SortedUnique(one, two, AssignmentLe);
    }
  }

  lemma SamplesMatch(a: Side, b: Side, h: Hashes)
    requires Accepted(a, h) && Accepted(b, h) && HexHash(h)
    ensures multiset(Map(AssignBy(FieldSetTable(a, h)), a.bundle.samples))
            == multiset(Map(AssignBy(FieldSetTable(b, h)), b.bundle.samples)) <==>
            Matches(a.bundle.samples, b.bundle.samples, (s: Sample, s2: Sample) => SameSample(a, s, b, s2))
  {
    var f, g := AssignBy(FieldSetTable(a, h)), AssignBy(FieldSetTable(b, h));
    var same := (s: Sample, s2: Sample) => SameSample(a, s, b, s2);
    LoopsDone(a, h);
    LoopsDone(b, h);
    hide Accepted, HexHash, FieldSetTable, RecordTable, Fold, SameSample, Matches;
    forall x, y | x in a.bundle.samples && y in b.bundle.samples ensures same(x, y) <==> f(x) == g(y) {
      SamplesExact(a, x, b, y, h);
    }
    MatchesExact(f, a.bundle.samples, g, b.bundle.samples, same);
  }

  /**
   The converse of relocation, and relocation again: with a collision-free hash, two bundles have
   equal provenance digests exactly when they are the same bundle up to the order of the lists, the
   exact hashes, and the data root below which the sources lie, source text by source text.
   */
  lemma DigestsMean(a: Side, b: Side, sqlite: Digest, sqlite2: Digest, h: Hashes)
    requires HexHash(h) && '\n' !in sqlite && '\n' !in sqlite2
    requires Absolute(a.root) && Absolute(b.root) && DistinctSamples(a.bundle)
    requires DigestsOf(a.bundle, a.root, sqlite, h).Ok? && DigestsOf(b.bundle, b.root, sqlite2, h).Ok?
    ensures var d, d2 := DigestsOf(a.bundle, a.root, sqlite, h).value, DigestsOf(b.bundle, b.root, sqlite2, h).value;
            d.provenance == d2.provenance <==> SameBundle(a, b)
  {
    PrefixIsAbsolute(a.root);
    PrefixIsAbsolute(b.root);
    assert Accepted(a, h) && Accepted(b, h);
    hide *;
    DigestsDetermine(a.bundle, a.root, sqlite, b.bundle, b.root, sqlite2, h);
    RecordsMatch(a, b, h);
    FieldSetsMatch(a, b, h);
    SortedAssignments(a, b, h);
    SamplesMatch(a, b, h);
    SameBundleIs(a, b);
  }

  lemma SameBundleIs(a: Side, b: Side)
    ensures SameBundle(a, b) <==>
            && Matches(a.bundle.records, b.bundle.records,
                       (e: RecordEntry, e2: RecordEntry) =>
                         SameRecord(e.record, Prefix(a.root), e2.record, Prefix(b.root)))
            && Matches(a.bundle.fieldSets, b.bundle.fieldSets,
                       (e: FieldSetEntry, e2: FieldSetEntry) => SameFields(a, e.fields, b, e2.fields))
            && Matches(a.bundle.samples, b.bundle.samples, (s: Sample, s2: Sample) => SameSample(a, s, b, s2))
  {
  }

  // ------------------------------------------------------------------
  // The hashed text, word for word
  // ------------------------------------------------------------------

  /** A bundle with one record of one source, one field set of one field, and one sample. */
  function SmallBundle(x: Digest, source: string, rest: string, y: Digest, name: string, particle: nat, sequence: nat)
    : Bundle
  {
    Bundle([RecordEntry(x, Record([source], rest))], [FieldSetEntry(y, map[name := Some(x)])],
           [Sample(particle, sequence, y)])
  }

  lemma SmallFold(item: Item, u: DigestError, d: DigestError)
    requires item.digest.Some?
    ensures Fold([item], u, d) == Ok(Seen(map[item.sha := item.digest.value], [item.digest.value]))
  {
    NothingSeen([item], u, d);
    FoldStep([item], 0, u, d);
    var none: map<Digest, Digest> := map[];
    assert [item][..1] == [item] && [item][0] == item;
    assert none[item.sha := item.digest.value] == map[item.sha := item.digest.value];
    assert [] + [item.digest.value] == [item.digest.value];
  }

  lemma SmallRecords(b: Bundle, x: Digest, path: string, rest: string, root: string, h: Hashes)
    requires b.records == [RecordEntry(x, Record([Prefix(root) + path], rest))]
    ensures var r := h.record(Record([SCHEME + path], rest));
            Fold(RecordItems(b, Prefix(root), h), EscapesRoot, DuplicateRecord) == Ok(Seen(map[x := r], [r]))
  {
    var prefix, r := Prefix(root), h.record(Record([SCHEME + path], rest));
    BelowRoot(path, prefix);
    NormalForm(prefix + path, prefix);
    assert Normalize(b.records[0].record, prefix) == Record([SCHEME + path], rest);
    assert RecordItems(b, prefix, h) == [Item(x, Some(r))];
    SmallFold(Item(x, Some(r)), EscapesRoot, DuplicateRecord);
  }

  lemma SmallFieldSets(b: Bundle, x: Digest, r: Digest, y: Digest, name: string, h: Hashes)
    requires b.fieldSets == [FieldSetEntry(y, map[name := Some(x)])]
    ensures var f := h.fields(map[name := r]);
            Fold(FieldSetItems(b, map[x := r], h), MissingRecord, DuplicateFieldSet) == Ok(Seen(map[y := f], [f]))
  {
    var table, f := map[x := r], h.fields(map[name := r]);
    assert ResolveFields(b.fieldSets[0].fields, table) == map[name := r];
    assert FieldSetItems(b, table, h) == [Item(y, Some(f))];
    SmallFold(Item(y, Some(f)), MissingRecord, DuplicateFieldSet);
  }

  lemma SingleSort<T>(x: T, le: (T, T) -> bool)
    ensures Sort([x], le) == [x]
  {
    assert [x][1..] == [];
  }

  lemma SmallContent(x: Digest, path: string, rest: string, y: Digest, name: string, particle: nat, sequence: nat,
                     root: string, h: Hashes)
    ensures var r := h.record(Record([SCHEME + path], rest));
            var f := h.fields(map[name := r]);
            ContentOf(SmallBundle(x, Prefix(root) + path, rest, y, name, particle, sequence), root, h)
            == Ok(Content([r], [f], [Assignment(particle, sequence, f)]))
  {
    var b := SmallBundle(x, Prefix(root) + path, rest, y, name, particle, sequence);
    var r := h.record(Record([SCHEME + path], rest));
    var f := h.fields(map[name := r]);
    SmallRecords(b, x, path, rest, root, h);
    SmallFieldSets(b, x, r, y, name, h);
    SingleSort(r, StringLe);
    SingleSort(f, StringLe);
    SingleSort(b.samples[0], SampleLe);
    hide Fold, RecordItems, FieldSetItems, Prefix, Sort, SCHEME;
    var assignments := Map((s: Sample) => Assign(s, map[y := f]), [b.samples[0]]);
    assert assignments == [Assignment(particle, sequence, f)];
  }

  lemma SmallText(r: Digest, f: Digest, particle: nat, sequence: nat)
    ensures Terminated(Lines([r], [f], [Assignment(particle, sequence, f)]), '\n')
            == FORMAT_LINE + "\n" + ALGORITHM_LINE + "\n" + "record=" + r + "\n" + "field_set=" + f + "\n"
               + "sample=" + Decimal(particle) + "," + Decimal(sequence) + "," + f + "\n"
  {
    hide FORMAT_LINE, ALGORITHM_LINE, Decimal;
    var sample := SampleLine(Assignment(particle, sequence, f));
    assert Lines([r], [f], [Assignment(particle, sequence, f)])
        == [FORMAT_LINE, ALGORITHM_LINE, RecordLine(r), FieldSetLine(f), sample];
    FiveLines(FORMAT_LINE, ALGORITHM_LINE, RecordLine(r), FieldSetLine(f), sample);
  }

  lemma FiveLines(a: string, b: string, c: string, d: string, e: string)
    ensures Terminated([a, b, c, d, e], '\n') == a + "\n" + b + "\n" + c + "\n" + d + "\n" + e + "\n"
  {
    FirstLine(a, [b, c, d, e]);
    FirstLine(b, [c, d, e]);
    FirstLine(c, [d, e]);
    FirstLine(d, [e]);
    FirstLine(e, []);
  }

  lemma FirstLine(a: string, rest: seq<string>)
    ensures Terminated([a] + rest, '\n') == a + "\n" + Terminated(rest, '\n')
  {
    assert ([a] + rest)[1..] == rest;
  }

  /** Both hashed texts of the small bundle, whose one source lies at a path below the root. */
  lemma SmallDigests(x: Digest, path: string, rest: string, y: Digest, name: string, particle: nat, sequence: nat,
                     root: string, sqlite: Digest, h: Hashes)
    ensures var r := h.record(Record([SCHEME + path], rest));
            var f := h.fields(map[name := r]);
            var provenance := h.text(FORMAT_LINE + "\n" + ALGORITHM_LINE + "\n" + "record=" + r + "\n"
                                     + "field_set=" + f + "\n"
                                     + "sample=" + Decimal(particle) + "," + Decimal(sequence) + "," + f + "\n");
            var canonical := h.text(CANONICAL_HEADER + "\n" + ("sqlite_sql_sha256=" + sqlite) + "\n"
                                    + ("provenance_content_sha256=" + provenance) + "\n");
            DigestsOf(SmallBundle(x, Prefix(root) + path, rest, y, name, particle, sequence), root, sqlite, h)
            == Ok(Digests(provenance, canonical))
  {
    var r := h.record(Record([SCHEME + path], rest));
    var f := h.fields(map[name := r]);
    SmallContent(x, path, rest, y, name, particle, sequence, root, h);
    SmallText(r, f, particle, sequence);
    hide ContentOf, SmallBundle, Lines, SCHEME, FORMAT_LINE, ALGORITHM_LINE, CANONICAL_HEADER, Decimal, Terminated,
         Prefix;
    var provenance := h.text(Terminated(Lines([r], [f], [Assignment(particle, sequence, f)]), '\n'));
    CanonicalLines(provenance, sqlite);
  }

  lemma CanonicalLines(provenance: Digest, sqlite: Digest)
    ensures CanonicalText(provenance, sqlite)
            == CANONICAL_HEADER + "\n" + ("sqlite_sql_sha256=" + sqlite) + "\n"
               + ("provenance_content_sha256=" + provenance) + "\n"
  {
    hide CANONICAL_HEADER, Terminated;
    var s, t := "sqlite_sql_sha256=" + sqlite, "provenance_content_sha256=" + provenance;
    assert [CANONICAL_HEADER] + [s, t] == [CANONICAL_HEADER, s, t];
    ThreeLines(CANONICAL_HEADER, s, t);
  }

  lemma ThreeLines(a: string, b: string, c: string)
    ensures Terminated([a, b, c], '\n') == a + "\n" + b + "\n" + c + "\n"
  {
    FirstLine(a, [b, c]);
    FirstLine(b, [c]);
    FirstLine(c, []);
  }
}
