/**
 The source-tree identity: a length-prefixed byte stream of sorted paths and contents, fed to a
 hash. File system and UTF-8 encoding are parameters.
 */
module SourceTree {
  import opened Wrappers
  import opened Bytes
  import opened Sorting
  import PackagePaths

  type Content = seq<Byte>

  datatype Node = Escapes | NotAFile | File(content: Content)

  /** What resolving a listed path under the root finds. */
  type FileSystem = string -> Node

  /** str.encode("utf-8"); lone surrogates have no encoding. */
  type Encoder = string -> Option<Content>

  datatype TreeError = BadPath(error: PackagePaths.PathError) | EscapedRoot | NotEncodable | TooLong

  datatype Entry = Entry(path: Content, content: Content)

  predicate Fits(e: Entry) {
    |e.path| < U64_LIMIT && |e.content| < U64_LIMIT
  }

  // ------------------------------------------------------------------
  // The stream
  // ------------------------------------------------------------------

  function EntryBytes(e: Entry): Content {
    BigEndian(|e.path|, 8) + e.path + BigEndian(|e.content|, 8) + e.content
  }

  function Stream(entries: seq<Entry>): Content {
    if entries == [] then [] else EntryBytes(entries[0]) + Stream(entries[1..])
  }

  /** A length-prefixed field at the front, and what follows it. */
  function TakeField(s: Content): (r: Option<(Content, Content)>)
    ensures r.Some? ==> |r.value.0| + |r.value.1| + 8 == |s|
  {
    if |s| < 8 then None
    else
      var n := FromBigEndian(s[..8]);
      if 8 + n > |s| then None else Some((s[8..8 + n], s[8 + n..]))
  }

  /** An independent reader of the stream. */
  function Decode(s: Content): Option<seq<Entry>>
    decreases |s|
  {
    if s == [] then Some([])
    else
      match TakeField(s)
      case None => None
      case Some(path) =>
        match TakeField(path.1)
        case None => None
        case Some(content) =>
          match Decode(content.1)
          case None => None
          case Some(rest) => Some([Entry(path.0, content.0)] + rest)
  }

  lemma FieldReads(field: Content, rest: Content)
    requires |field| < U64_LIMIT
    ensures TakeField(BigEndian(|field|, 8) + field + rest) == Some((field, rest))
  {
    Pow256Values();
    BigEndianRoundTrip(|field|, 8);
    var s := BigEndian(|field|, 8) + field + rest;
    assert s[..8] == BigEndian(|field|, 8) && s[8..8 + |field|] == field && s[8 + |field|..] == rest;
  }

  lemma {:induction false} DecodeStream(entries: seq<Entry>)
    requires forall i :: 0 <= i < |entries| ==> Fits(entries[i])
    ensures Decode(Stream(entries)) == Some(entries)
  {
    if entries != [] {
      var e, rest := entries[0], Stream(entries[1..]);
      var tail := BigEndian(|e.content|, 8) + e.content + rest;
      assert Stream(entries) == BigEndian(|e.path|, 8) + e.path + tail;
      FieldReads(e.path, tail);
      FieldReads(e.content, rest);
      DecodeStream(entries[1..]);
      assert entries == [e] + entries[1..];
    }
  }

  lemma FieldWrites(s: Content)
    requires TakeField(s).Some?
    ensures var (field, rest) := TakeField(s).value;
            |field| < U64_LIMIT && s == BigEndian(|field|, 8) + field + rest
  {
    Pow256Values();
    FromBigEndianRoundTrip(s[..8]);
    var n := FromBigEndian(s[..8]);
    assert s == s[..8] + s[8..8 + n] + s[8 + n..];
  }

  lemma {:induction false} StreamDecoded(s: Content)
    requires Decode(s).Some?
    ensures Stream(Decode(s).value) == s && forall i :: 0 <= i < |Decode(s).value| ==> Fits(Decode(s).value[i])
    decreases |s|
  {
    hide TakeField, BigEndian;
    if s != [] {
      var (path, after) := TakeField(s).value;
      var (content, rest) := TakeField(after).value;
      FieldWrites(s);
      FieldWrites(after);
      StreamDecoded(rest);
      var e, others := Entry(path, content), Decode(rest).value;
      assert Decode(s).value == [e] + others && ([e] + others)[1..] == others;
      assert s == BigEndian(|path|, 8) + path + (BigEndian(|content|, 8) + content + rest);
      assert s == EntryBytes(e) + rest;
    }
  }

  /** The stream is uniquely decodable: it is the encoding of exactly one list of (path, content). */
  lemma StreamExact(s: Content, entries: seq<Entry>)
    ensures Decode(s) == Some(entries) <==>
            s == Stream(entries) && forall i :: 0 <= i < |entries| ==> Fits(entries[i])
  {
    if Decode(s) == Some(entries) { StreamDecoded(s); }
    if s == Stream(entries) && forall i :: 0 <= i < |entries| ==> Fits(entries[i]) { DecodeStream(entries); }
  }

  // ------------------------------------------------------------------
  // source_tree_identity
  // ------------------------------------------------------------------

  /** One listed path: an entry, nothing for what is not a file, or an exception. */
  function EntryOf(relative: string, files: FileSystem, encode: Encoder): Result<Option<Entry>, TreeError> {
    match PackagePaths.NormalizedRelative(PackagePaths.ForwardSlashes(relative))
    case Err(error) => Err(BadPath(error))
    case Ok(normalized) =>
      match files(relative)
      case Escapes => Err(EscapedRoot)
      case NotAFile => Ok(None)
      case File(content) =>
        match encode(normalized)
        case None => Err(NotEncodable)
        case Some(path) => if Fits(Entry(path, content)) then Ok(Some(Entry(path, content))) else Err(TooLong)
  }

  function EntriesOf(paths: seq<string>, files: FileSystem, encode: Encoder): Result<seq<Entry>, TreeError> {
    if paths == [] then Ok([])
    else
      match EntryOf(paths[0], files, encode)
      case Err(error) => Err(error)
      case Ok(entry) =>
        match EntriesOf(paths[1..], files, encode)
        case Err(error) => Err(error)
        case Ok(rest) => Ok((if entry.Some? then [entry.value] else []) + rest)
  }

  function After(done: seq<Entry>, r: Result<seq<Entry>, TreeError>): Result<seq<Entry>, TreeError> {
    if r.Ok? then Ok(done + r.value) else r
  }

  lemma {:induction false} StreamAppend(entries: seq<Entry>, e: Entry)
    ensures Stream(entries + [e]) == Stream(entries) + EntryBytes(e)
  {
    hide EntryBytes;
    if entries == [] {
      assert [e][1..] == [];
      assert Stream([e]) == EntryBytes(e) + Stream([]);
    } else {
      StreamAppend(entries[1..], e);
      assert (entries + [e])[1..] == entries[1..] + [e];
    }
  }

  lemma EntryStep(paths: seq<string>, i: nat, files: FileSystem, encode: Encoder, done: seq<Entry>)
    requires i < |paths|
    ensures After(done, EntriesOf(paths[i..], files, encode)) ==
            match EntryOf(paths[i], files, encode)
            case Err(error) => Err(error)
            case Ok(entry) =>
              After(done + if entry.Some? then [entry.value] else [], EntriesOf(paths[i + 1..], files, encode))
  {
    hide EntryOf;
    assert paths[i..][0] == paths[i] && paths[i..][1..] == paths[i + 1..];
    var rest := EntriesOf(paths[i + 1..], files, encode);
    if EntryOf(paths[i], files, encode).Ok? && rest.Ok? {
      var entry := EntryOf(paths[i], files, encode).value;
      var added := if entry.Some? then [entry.value] else [];
      assert done + (added + rest.value) == done + added + rest.value;
    }
  }

  /** The hash input built file by file: exactly the stream of the entries of the sorted listing. */
  method SourceTreeStream(listing: seq<string>, files: FileSystem, encode: Encoder)
    returns (r: Result<Content, TreeError>)
    ensures r == match EntriesOf(Sort(listing, StringLe), files, encode)
                 case Err(error) => Err(error)
                 case Ok(entries) => Ok(Stream(entries))
  {
    hide Sort, EntriesOf;
    var paths := Sort(listing, StringLe);
    var stream: Content := [];
    ghost var done: seq<Entry> := [];
    ghost var whole := EntriesOf(paths, files, encode);
    assert paths[0..] == paths;
    if whole.Ok? { assert [] + whole.value == whole.value; }
    for i := 0 to |paths|
      invariant whole == After(done, EntriesOf(paths[i..], files, encode))
      invariant stream == Stream(done)
    {
      EntryStep(paths, i, files, encode, done);
      var normalized := PackagePaths.NormalizedRelative(PackagePaths.ForwardSlashes(paths[i]));
      if normalized.Err? {
        return Err(BadPath(normalized.error));
      }
      match files(paths[i]) {
        case Escapes => return Err(EscapedRoot);
        case NotAFile =>
          assert done + [] == done;
        case File(content) =>
          var encoded := encode(normalized.value);
          if encoded.None? {
            return Err(NotEncodable);
          }
          if |encoded.value| >= U64_LIMIT || |content| >= U64_LIMIT {
            return Err(TooLong);
          }
          ghost var e := Entry(encoded.value, content);
          stream := stream + BigEndian(|encoded.value|, 8) + encoded.value + BigEndian(|content|, 8) + content;
          StreamAppend(done, e);
          assert stream == Stream(done + [e]);
          done := done + [e];
      }
    }
    EndOfPaths(paths, files, encode);
    assert done + [] == done;
    r := Ok(stream);
  }

  lemma EndOfPaths(paths: seq<string>, files: FileSystem, encode: Encoder)
    ensures EntriesOf(paths[|paths|..], files, encode) == Ok([])
  {
  }

  lemma {:induction false} EntriesFit(paths: seq<string>, files: FileSystem, encode: Encoder)
    requires EntriesOf(paths, files, encode).Ok?
    ensures var entries := EntriesOf(paths, files, encode).value;
            forall i :: 0 <= i < |entries| ==> Fits(entries[i])
  {
    if paths != [] {
      EntriesFit(paths[1..], files, encode);
    }
  }

  // ------------------------------------------------------------------
  // What the stream says about the tree, file by file
  // ------------------------------------------------------------------

  /** The listed paths that are files, in order. */
  function FilesIn(paths: seq<string>, files: FileSystem): (found: seq<string>)
    ensures forall p :: p in found <==> p in paths && files(p).File?
  {
    if paths == [] then []
    else
      assert paths == [paths[0]] + paths[1..];
      (if files(paths[0]).File? then [paths[0]] else []) + FilesIn(paths[1..], files)
  }

  /** The path as the stream spells it: forward slashes, normalized, encoded. */
  ghost predicate Spells(spelled: Content, path: string, encode: Encoder) {
    var normalized := PackagePaths.NormalizedRelative(PackagePaths.ForwardSlashes(path));
    normalized.Ok? && encode(normalized.value) == Some(spelled)
  }

  /** One entry a file, in order, with the file's own bytes. */
  ghost predicate Records(entries: seq<Entry>, found: seq<string>, files: FileSystem, encode: Encoder) {
    && |entries| == |found|
    && forall i :: 0 <= i < |found| ==>
         Spells(entries[i].path, found[i], encode) && files(found[i]) == File(entries[i].content)
  }

  /** Nothing about the path is an exception. */
  ghost predicate Acceptable(path: string, files: FileSystem, encode: Encoder) {
    && PackagePaths.NormalizedRelative(PackagePaths.ForwardSlashes(path)).Ok?
    && !files(path).Escapes?
    && (files(path).File? ==> |files(path).content| < U64_LIMIT
                              && exists spelled :: Spells(spelled, path, encode) && |spelled| < U64_LIMIT)
  }

  /** The exception that the path raises. */
  ghost predicate Raises(path: string, files: FileSystem, encode: Encoder, error: TreeError) {
    var normalized := PackagePaths.NormalizedRelative(PackagePaths.ForwardSlashes(path));
    match error
    case BadPath(e) => normalized == Err(e)
    case EscapedRoot => normalized.Ok? && files(path) == Escapes
    case NotEncodable => normalized.Ok? && files(path).File? && encode(normalized.value) == None
    case TooLong =>
      normalized.Ok? && files(path).File? && encode(normalized.value).Some?
      && (|encode(normalized.value).value| >= U64_LIMIT || |files(path).content| >= U64_LIMIT)
  }

  lemma {:induction false} EntriesRecord(paths: seq<string>, files: FileSystem, encode: Encoder)
    ensures var r := EntriesOf(paths, files, encode);
            && (r.Ok? <==> forall p :: p in paths ==> Acceptable(p, files, encode))
            && (r.Ok? ==> Records(r.value, FilesIn(paths, files), files, encode))
            && (r.Err? ==> exists i :: 0 <= i < |paths| && Raises(paths[i], files, encode, r.error)
                                       && forall p :: p in paths[..i] ==> Acceptable(p, files, encode))
  {
    if paths != [] {
      assert paths == [paths[0]] + paths[1..];
      FirstEntry(paths[0], files, encode);
      EntriesRecord(paths[1..], files, encode);
      hide EntryOf, Acceptable, Raises;
      var rest := EntriesOf(paths[1..], files, encode);
      if EntryOf(paths[0], files, encode).Err? {
        assert Raises(paths[0], files, encode, EntryOf(paths[0], files, encode).error) && paths[..0] == [];
      } else if rest.Err? {
        var i :| 0 <= i < |paths[1..]| && Raises(paths[1..][i], files, encode, rest.error)
                 && forall p :: p in paths[1..][..i] ==> Acceptable(p, files, encode);
        assert paths[..i + 1] == [paths[0]] + paths[1..][..i] && paths[i + 1] == paths[1..][i];
      } else {
        RecordsFirst(paths, files, encode);
      }
    }
  }

  lemma FirstEntry(path: string, files: FileSystem, encode: Encoder)
    ensures var r := EntryOf(path, files, encode);
            && (r.Ok? <==> Acceptable(path, files, encode))
            && (r.Ok? ==> (r.value.Some? <==> files(path).File?))
            && (r.Ok? && r.value.Some? ==> Spells(r.value.value.path, path, encode)
                                           && files(path) == File(r.value.value.content))
            && (r.Err? ==> Raises(path, files, encode, r.error))
  {
    var normalized := PackagePaths.NormalizedRelative(PackagePaths.ForwardSlashes(path));
    if normalized.Ok? && encode(normalized.value).Some? {
      assert Spells(encode(normalized.value).value, path, encode);
    }
  }

  lemma EntriesOfFirst(paths: seq<string>, files: FileSystem, encode: Encoder)
    requires paths != [] && EntriesOf(paths, files, encode).Ok?
    ensures EntryOf(paths[0], files, encode).Ok? && EntriesOf(paths[1..], files, encode).Ok?
    ensures var first := EntryOf(paths[0], files, encode).value;
            EntriesOf(paths, files, encode).value
            == (if first.Some? then [first.value] else []) + EntriesOf(paths[1..], files, encode).value
  {
    hide EntryOf;
  }

  lemma RecordsFirst(paths: seq<string>, files: FileSystem, encode: Encoder)
    requires paths != [] && EntriesOf(paths, files, encode).Ok? && EntriesOf(paths[1..], files, encode).Ok?
    requires Records(EntriesOf(paths[1..], files, encode).value, FilesIn(paths[1..], files), files, encode)
    ensures Records(EntriesOf(paths, files, encode).value, FilesIn(paths, files), files, encode)
  {
    hide *;
    FilesInFirst(paths, files);
    EntriesOfFirst(paths, files, encode);
    FirstEntry(paths[0], files, encode);
    RecordsGrow(EntryOf(paths[0], files, encode).value, paths[0], EntriesOf(paths[1..], files, encode).value,
                FilesIn(paths[1..], files), files, encode);
  }

  lemma FilesInFirst(paths: seq<string>, files: FileSystem)
    requires paths != []
    ensures FilesIn(paths, files) == (if files(paths[0]).File? then [paths[0]] else []) + FilesIn(paths[1..], files)
  {
  }

  lemma RecordsGrow(first: Option<Entry>, path: string, rest: seq<Entry>, found: seq<string>, files: FileSystem,
                    encode: Encoder)
    requires first.Some? <==> files(path).File?
    requires first.Some? ==> Spells(first.value.path, path, encode) && files(path) == File(first.value.content)
    requires Records(rest, found, files, encode)
    ensures Records((if first.Some? then [first.value] else []) + rest,
                    (if files(path).File? then [path] else []) + found, files, encode)
  {
    hide Spells, Records;
    if first.Some? {
      RecordsCons(first.value, path, rest, found, files, encode);
    } else {
      assert [] + rest == rest && [] + found == found;
    }
  }

  lemma RecordsCons(e: Entry, path: string, rest: seq<Entry>, found: seq<string>, files: FileSystem, encode: Encoder)
    requires Spells(e.path, path, encode) && files(path) == File(e.content) && Records(rest, found, files, encode)
    ensures Records([e] + rest, [path] + found, files, encode)
  {
    hide Spells;
  }

  /**
   What is hashed: decoding the stream lists, for the files of the sorted listing in order, the
   encoded normalized path and the file's bytes; and the method fails exactly when some listed path
   raises an exception, with the exception of the first one in order.
   */
  lemma StreamShowsFiles(listing: seq<string>, files: FileSystem, encode: Encoder, r: Result<Content, TreeError>)
    requires r == match EntriesOf(Sort(listing, StringLe), files, encode)
                  case Err(error) => Err(error)
                  case Ok(entries) => Ok(Stream(entries))
    ensures r.Ok? <==> forall p :: p in listing ==> Acceptable(p, files, encode)
    ensures r.Ok? ==> Decode(r.value).Some?
                      && Records(Decode(r.value).value, FilesIn(Sort(listing, StringLe), files), files, encode)
    ensures r.Err? ==> var paths := Sort(listing, StringLe);
                       exists i :: 0 <= i < |paths| && Raises(paths[i], files, encode, r.error)
                                   && forall p :: p in paths[..i] ==> Acceptable(p, files, encode)
  {
    var paths := Sort(listing, StringLe);
    StringOrder();
    SortMembers(listing, StringLe);
    EntriesRecord(paths, files, encode);
    hide Sort, StringLe, EntriesOf, Acceptable, Records;
    if r.Ok? {
      EntriesFit(paths, files, encode);
      DecodeStream(EntriesOf(paths, files, encode).value);
    }
  }

  /** The two trees have the same files in order: the same spelled paths and the same bytes. */
  ghost predicate SameFiles(found: seq<string>, files: FileSystem, found2: seq<string>, files2: FileSystem,
                            encode: Encoder) {
    && |found| == |found2|
    && forall i :: 0 <= i < |found| ==>
         files(found[i]) == files2(found2[i])
         && SpelledAlike(found[i], found2[i], encode)
  }

  ghost predicate SpelledAlike(path: string, path2: string, encode: Encoder) {
    exists spelled :: Spells(spelled, path, encode) && Spells(spelled, path2, encode)
  }

  lemma RecordsDetermine(a: seq<Entry>, found: seq<string>, files: FileSystem,
                         b: seq<Entry>, found2: seq<string>, files2: FileSystem, encode: Encoder)
    requires Records(a, found, files, encode) && Records(b, found2, files2, encode)
    ensures a == b <==> SameFiles(found, files, found2, files2, encode)
  {
    if SameFiles(found, files, found2, files2, encode) {
      forall i | 0 <= i < |a| ensures a[i] == b[i] {
        assert SpelledAlike(found[i], found2[i], encode);
        var spelled :| Spells(spelled, found[i], encode) && Spells(spelled, found2[i], encode);
        assert spelled == a[i].path == b[i].path;
      }
    }
    if a == b {
      forall i | 0 <= i < |found|
        ensures files(found[i]) == files2(found2[i]) && SpelledAlike(found[i], found2[i], encode)
      {
        assert Spells(a[i].path, found[i], encode) && Spells(a[i].path, found2[i], encode);
      }
    }
  }

  /**
   Two trees have equal streams exactly when the files of their sorted listings have the same spelled
   paths and the same bytes, one by one; and reordering a listing does not change its stream.
   */
  lemma StreamIdentifiesTree(listing: seq<string>, files: FileSystem, listing2: seq<string>, files2: FileSystem,
                             encode: Encoder)
    requires EntriesOf(Sort(listing, StringLe), files, encode).Ok?
    requires EntriesOf(Sort(listing2, StringLe), files2, encode).Ok?
    ensures var a, b := EntriesOf(Sort(listing, StringLe), files, encode).value,
                        EntriesOf(Sort(listing2, StringLe), files2, encode).value;
            && (Stream(a) == Stream(b) <==>
                  SameFiles(FilesIn(Sort(listing, StringLe), files), files,
                            FilesIn(Sort(listing2, StringLe), files2), files2, encode))
            && (multiset(listing) == multiset(listing2) && files == files2 ==> Stream(a) == Stream(b))
  {
    var paths, paths2 := Sort(listing, StringLe), Sort(listing2, StringLe);
    var a, b := EntriesOf(paths, files, encode).value, EntriesOf(paths2, files2, encode).value;
    EntriesFit(paths, files, encode);
    EntriesFit(paths2, files2, encode);
    DecodeStream(a);
    DecodeStream(b);
    EntriesRecord(paths, files, encode);
    EntriesRecord(paths2, files2, encode);
    hide Stream, Decode, EntriesOf, Records, SameFiles, Sort, StringLe;
    RecordsDetermine(a, FilesIn(paths, files), files, b, FilesIn(paths2, files2), files2, encode);
    if multiset(listing) == multiset(listing2) {
      ListingOrder(listing, listing2);
    }
  }

  lemma ListingOrder(listing: seq<string>, listing2: seq<string>)
    requires multiset(listing) == multiset(listing2)
    ensures Sort(listing, StringLe) == Sort(listing2, StringLe)
  {
    StringOrder();
    forall x, y | x in listing && y in listing && StringLe(x, y) && StringLe(y, x) ensures x == y {
      StringLeAntisymmetric(x, y);
    }
    SortForgetsOrder(listing, listing2, StringLe);
  }
}
