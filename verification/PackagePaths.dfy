/** Contained package paths, and the git porcelain status parser built on them. */
module PackagePaths {
  import opened Wrappers
  import opened Sorting
  import opened Separated

  datatype PathError =
    | Backslash
    | NotContained
    | OutsideRoot
    | InvalidEntry
    | InvalidStatus
    | TruncatedRename

  // ------------------------------------------------------------------
  // normalized_relative
  // ------------------------------------------------------------------

  function Kept(parts: seq<string>): seq<string> {
    if parts == [] then []
    else (if parts[0] == "" || parts[0] == "." then [] else [parts[0]]) + Kept(parts[1..])
  }

  /** PurePosixPath(path).parts of a relative path. */
  function Parts(path: string): seq<string> {
    Kept(Split(path, '/'))
  }

  /** PurePosixPath(path).as_posix() of a relative path. */
  function AsPosix(parts: seq<string>): string {
    if parts == [] then "." else Join(parts, '/')
  }

  function NormalizedRelative(path: string): Result<string, PathError> {
    if '\\' in path then Err(Backslash)
    else if path == "" || path == "." || path[0] == '/' || ".." in Parts(path) then Err(NotContained)
    else Ok(AsPosix(Parts(path)))
  }

  predicate PlainPart(part: string) {
    part != "" && part != "." && part != ".." && '/' !in part && '\\' !in part
  }

  /** A path of plain components. */
  ghost predicate IsNormalized(path: string) {
    exists parts :: parts != [] && (forall i :: 0 <= i < |parts| ==> PlainPart(parts[i])) && path == Join(parts, '/')
  }

  lemma {:induction false} KeptKeepsPlain(parts: seq<string>)
    requires forall i :: 0 <= i < |parts| ==> parts[i] != "" && parts[i] != "."
    ensures Kept(parts) == parts
  {
    if parts != [] {
      KeptKeepsPlain(parts[1..]);
      assert parts == [parts[0]] + parts[1..];
    }
  }

  lemma {:induction false} JoinFree(parts: seq<string>, sep: char, c: char)
    requires parts != [] && AllFree(parts, c) && sep != c
    ensures c !in Join(parts, sep)
  {
    if |parts| > 1 {
      JoinFree(parts[1..], sep, c);
    }
  }

  lemma JoinHead(parts: seq<string>)
    requires parts != [] && parts[0] != ""
    ensures Join(parts, '/') != "" && Join(parts, '/')[0] == parts[0][0]
  {
  }

  lemma JoinNotDot(parts: seq<string>)
    requires parts != [] && parts[0] != "" && parts[0] != "." && '/' !in parts[0]
    ensures Join(parts, '/') != "."
  {
    var j := Join(parts, '/');
    if |parts| > 1 {
      assert j[|parts[0]|] == '/';
    }
  }

  /** Normalized paths are unchanged. */
  lemma NormalizedIsFixed(path: string)
    requires IsNormalized(path)
    ensures NormalizedRelative(path) == Ok(path)
  {
    var parts :| parts != [] && (forall i :: 0 <= i < |parts| ==> PlainPart(parts[i])) && path == Join(parts, '/');
    SplitJoin(parts, '/');
    KeptKeepsPlain(parts);
    JoinFree(parts, '/', '\\');
    JoinHead(parts);
    JoinNotDot(parts);
    assert PlainPart(parts[0]) && parts[0][0] in parts[0];
    assert forall i :: 0 <= i < |parts| ==> parts[i] != "..";
  }

  lemma {:induction false} KeptParts(parts: seq<string>)
    ensures forall p :: p in Kept(parts) ==> p in parts && p != "" && p != "."
  {
    if parts != [] {
      KeptParts(parts[1..]);
      assert parts == [parts[0]] + parts[1..];
    }
  }

  lemma {:induction false} SplitParts(s: string, sep: char)
    ensures forall p :: p in Split(s, sep) ==> sep !in p
    ensures forall p, c :: p in Split(s, sep) && c in p ==> c in s
  {
    if s != [] {
      SplitParts(s[1..], sep);
      assert s == [s[0]] + s[1..];
      var rest := Split(s[1..], sep);
      assert rest == [rest[0]] + rest[1..];
    }
  }

  /** No component of the path is a name: each is empty or a single dot. */
  ghost predicate NamesNothing(path: string) {
    forall part :: part in Split(path, '/') ==> part == "" || part == "."
  }

  lemma {:induction false} KeptNothing(parts: seq<string>)
    ensures Kept(parts) == [] <==> forall part :: part in parts ==> part == "" || part == "."
  {
    if parts != [] {
      KeptNothing(parts[1..]);
      assert parts == [parts[0]] + parts[1..];
      assert parts[0] in parts && forall part :: part in parts[1..] ==> part in parts;
    }
  }

  /** Every accepted path comes out normalized, except that one whose components name nothing comes out as ".". */
  lemma AcceptedIsNormalized(path: string)
    requires NormalizedRelative(path).Ok?
    ensures var n := NormalizedRelative(path).value;
            && (n == "." <==> NamesNothing(path))
            && (n != "." ==> IsNormalized(n))
  {
    var parts := Parts(path);
    KeptParts(Split(path, '/'));
    KeptNothing(Split(path, '/'));
    SplitParts(path, '/');
    forall i | 0 <= i < |parts| ensures PlainPart(parts[i]) {
      assert parts[i] in parts;
      assert parts[i] in Split(path, '/');
    }
    if parts != [] { JoinNotDot(parts); }
  }

  /** What is accepted: a relative path without backslashes that names no parent, other than "" and ".". */
  lemma AcceptedExact(path: string)
    ensures NormalizedRelative(path).Ok? <==>
            '\\' !in path && path != "" && path != "." && path[0] != '/' && ".." !in Split(path, '/')
    ensures NormalizedRelative(path) == Err(Backslash) <==> '\\' in path
  {
    KeepsNames(Split(path, '/'), "..");
  }

  lemma {:induction false} KeepsNames(parts: seq<string>, part: string)
    requires part != "" && part != "."
    ensures part in Kept(parts) <==> part in parts
  {
    if parts != [] {
      KeepsNames(parts[1..], part);
      assert parts == [parts[0]] + parts[1..];
    }
  }

  /** noisy is plain with empty and single-dot components in between. */
  predicate Interleaves(noisy: seq<string>, plain: seq<string>) {
    if noisy == [] then plain == []
    else
      || ((noisy[0] == "" || noisy[0] == ".") && Interleaves(noisy[1..], plain))
      || (plain != [] && noisy[0] == plain[0] && Interleaves(noisy[1..], plain[1..]))
  }

  ghost predicate PlainParts(parts: seq<string>) {
    parts != [] && forall i :: 0 <= i < |parts| ==> PlainPart(parts[i])
  }

  lemma {:induction false} NoiseIsKept(noisy: seq<string>, plain: seq<string>)
    requires Interleaves(noisy, plain) && forall i :: 0 <= i < |plain| ==> PlainPart(plain[i])
    ensures Kept(noisy) == plain
    ensures forall part :: part in noisy ==> part == "" || part == "." || part in plain
  {
    if noisy != [] {
      assert noisy == [noisy[0]] + noisy[1..];
      if (noisy[0] == "" || noisy[0] == ".") && Interleaves(noisy[1..], plain) {
        NoiseIsKept(noisy[1..], plain);
      } else {
        NoiseIsKept(noisy[1..], plain[1..]);
        assert plain == [plain[0]] + plain[1..];
      }
    }
  }

  /** What comes out: the named components in order, joined by single slashes, without the noise between them. */
  lemma NoiseIsDropped(noisy: seq<string>, plain: seq<string>)
    requires PlainParts(plain) && Interleaves(noisy, plain) && noisy[0] != ""
    ensures NormalizedRelative(Join(noisy, '/')) == Ok(Join(plain, '/'))
  {
    NoiseIsKept(noisy, plain);
    forall i | 0 <= i < |noisy| ensures '/' !in noisy[i] && '\\' !in noisy[i] && noisy[i] != ".." {
      assert noisy[i] in noisy;
      if noisy[i] in plain {
        var j :| 0 <= j < |plain| && plain[j] == noisy[i];
        assert PlainPart(plain[j]);
      }
    }
    hide PlainPart, Interleaves;
    var path := Join(noisy, '/');
    SplitJoin(noisy, '/');
    JoinFree(noisy, '/', '\\');
    JoinHead(noisy);
    assert noisy[0][0] in noisy[0];
    AcceptedExact(path);
    SplitJoin(["."], '/');
    assert Kept(["."]) == [] && Join(["."], '/') == ".";
  }

  /** Normalizing twice is normalizing once exactly when some component of the path is a name. */
  lemma IdempotentExact(path: string)
    requires NormalizedRelative(path).Ok?
    ensures var n := NormalizedRelative(path).value;
            NormalizedRelative(n) == Ok(n) <==> !NamesNothing(path)
  {
    AcceptedIsNormalized(path);
    var n := NormalizedRelative(path).value;
    if n != "." { NormalizedIsFixed(n); }
  }

  /** An accepted path whose normal form is refused. */
  lemma DotsAreNotIdempotent()
    ensures NormalizedRelative("./.") == Ok(".") && NormalizedRelative(".") == Err(NotContained)
  {
    var parts := [".", "."];
    assert Join(parts, '/') == "./.";
    SplitJoin(parts, '/');
    KeptNothing(parts);
  }

  // ------------------------------------------------------------------
  // parse_porcelain_paths
  // ------------------------------------------------------------------

  const NUL: char := '\0'

  function TrimLeft(s: string): string {
    if s != [] && s[0] == '/' then TrimLeft(s[1..]) else s
  }

  function TrimRight(s: string): string {
    if s != [] && s[|s| - 1] == '/' then TrimRight(s[..|s| - 1]) else s
  }

  /** The root prefix without leading and trailing slashes. */
  function Strip(s: string): string {
    TrimRight(TrimLeft(s))
  }

  function ForwardSlashes(s: string): (r: string)
    ensures |r| == |s|
  {
    seq(|s|, i requires 0 <= i < |s| => if s[i] == '\\' then '/' else s[i])
  }

  /** Backslashes in a status are slashes: exchanging them does not change what a path is read as. */
  lemma BackslashesAreSlashes(v: string, w: string, prefix: string)
    requires |v| == |w| && forall i :: 0 <= i < |v| ==> v[i] == w[i] || (v[i] == '\\' && w[i] == '/')
    ensures RelativePath(v, prefix) == RelativePath(w, prefix)
  {
    assert ForwardSlashes(v) == ForwardSlashes(w);
  }

  lemma {:induction false} TrimsRight(prefix: string, n: nat)
    requires prefix == "" || prefix[|prefix| - 1] != '/'
    ensures TrimRight(prefix + Slashes(n)) == prefix
  {
    var s := prefix + Slashes(n);
    if n > 0 {
      assert s[|s| - 1] == '/' && s[..|s| - 1] == prefix + Slashes(n - 1);
      TrimsRight(prefix, n - 1);
    } else {
      assert s == prefix;
    }
  }

  lemma {:induction false} SlashesAt(n: nat, i: nat)
    requires i < n
    ensures Slashes(n)[i] == '/'
  {
    if i < n - 1 { SlashesAt(n - 1, i); }
  }

  lemma {:induction false} TrimsLeft(n: nat, rest: string)
    requires rest == "" || rest[0] != '/'
    ensures TrimLeft(Slashes(n) + rest) == rest
  {
    if n > 0 {
      SlashesAt(n, 0);
      forall i | 0 <= i < n - 1 ensures Slashes(n)[1..][i] == Slashes(n - 1)[i] {
        SlashesAt(n, i + 1);
        SlashesAt(n - 1, i);
      }
      var s := Slashes(n) + rest;
      assert Slashes(n)[1..] == Slashes(n - 1);
      assert s[1..] == Slashes(n - 1) + rest;
      TrimsLeft(n - 1, rest);
    } else {
      assert Slashes(0) + rest == rest;
    }
  }

  /** Slashes around a root prefix do not count. */
  lemma StripExact(m: nat, prefix: string, n: nat)
    requires prefix == "" || (prefix[0] != '/' && prefix[|prefix| - 1] != '/')
    ensures Strip(Slashes(m) + prefix + Slashes(n)) == prefix
  {
    if prefix == "" {
      AllSlashes(m, n);
      TrimsLeft(m + n, "");
      assert Slashes(m + n) + "" == Slashes(m + n);
    } else {
      assert Slashes(m) + prefix + Slashes(n) == Slashes(m) + (prefix + Slashes(n));
      TrimsLeft(m, prefix + Slashes(n));
      TrimsRight(prefix, n);
    }
  }

  lemma {:induction false} AllSlashes(m: nat, n: nat)
    ensures Slashes(m) + "" + Slashes(n) == Slashes(m + n)
  {
    var s := Slashes(m) + "" + Slashes(n);
    forall i | 0 <= i < m + n ensures s[i] == Slashes(m + n)[i] {
      SlashesAt(m + n, i);
      if i < m { SlashesAt(m, i); } else { SlashesAt(n, i - m); }
    }
  }

  function RelativePath(value: string, prefix: string): Result<string, PathError> {
    match NormalizedRelative(ForwardSlashes(value))
    case Err(error) => Err(error)
    case Ok(normalized) =>
      if prefix == "" then Ok(normalized)
      else if prefix + "/" <= normalized then Ok(normalized[|prefix| + 1..])
      else Err(OutsideRoot)
  }

  predicate IsRename(status: string) {
    'R' in status || 'C' in status
  }

  /** What one pass through the loop adds, and the entry it goes on with. */
  datatype Parsed = Parsed(paths: set<string>, next: nat)

  function ParseEntry(entries: seq<string>, i: nat, prefix: string): (r: Result<Parsed, PathError>)
    requires i < |entries|
    ensures r.Ok? ==> i < r.value.next <= |entries|
  {
    var entry := entries[i];
    if entry == "" then Ok(Parsed({}, i + 1))
    else if |entry| < 4 || entry[2] != ' ' then Err(InvalidEntry)
    else if !(entry[0] < 128 as char && entry[1] < 128 as char) then Err(InvalidStatus)
    else
      match RelativePath(entry[3..], prefix)
      case Err(error) => Err(error)
      case Ok(path) =>
        if !IsRename(entry[..2]) then Ok(Parsed({path}, i + 1))
        else if i + 1 >= |entries| || entries[i + 1] == "" then Err(TruncatedRename)
        else
          match RelativePath(entries[i + 1], prefix)
          case Err(error) => Err(error)
          case Ok(original) => Ok(Parsed({path, original}, i + 2))
  }

  /** What the loop adds from entry i on. */
  function ParseFrom(entries: seq<string>, i: nat, prefix: string): Result<set<string>, PathError>
    requires i <= |entries|
    decreases |entries| - i
  {
    if i == |entries| then Ok({})
    else
      match ParseEntry(entries, i, prefix)
      case Err(error) => Err(error)
      case Ok(parsed) => Adding(parsed.paths, ParseFrom(entries, parsed.next, prefix))
  }

  function Adding(paths: set<string>, r: Result<set<string>, PathError>): Result<set<string>, PathError> {
    if r.Ok? then Ok(paths + r.value) else r
  }

  /** The outcome of parsing: the error of the first bad entry, or the sorted list of the paths found. */
  ghost predicate ParsesTo(raw: string, rootPrefix: string, r: Result<seq<string>, PathError>) {
    match ParseFrom(Split(raw, NUL), 0, Strip(rootPrefix))
    case Err(error) => r == Err(error)
    case Ok(paths) => r.Ok? && StrictlySorted(r.value) && forall p :: p in r.value <==> p in paths
  }

  /** There is one such outcome. */
  lemma OutcomeUnique(raw: string, rootPrefix: string, r: Result<seq<string>, PathError>,
                      r2: Result<seq<string>, PathError>)
    requires ParsesTo(raw, rootPrefix, r) && ParsesTo(raw, rootPrefix, r2)
    ensures r == r2
  {
    if r.Ok? && r2.Ok? { StrictlySortedUnique(r.value, r2.value); }
  }

  method ParsePorcelain(raw: string, rootPrefix: string) returns (r: Result<seq<string>, PathError>)
    ensures ParsesTo(raw, rootPrefix, r)
  {
    hide RelativePath, Split, Strip;
    var prefix := Strip(rootPrefix);
    var entries := Split(raw, NUL);
    var paths: set<string> := {};
    var index := 0;
    AddNothing(ParseFrom(entries, 0, prefix));
    while index < |entries|
      invariant 0 <= index <= |entries|
      invariant ParseFrom(entries, 0, prefix) == Adding(paths, ParseFrom(entries, index, prefix))
    {
      ghost var i, before := index, paths;
      var entry := entries[index];
      index := index + 1;
      if entry != "" {
        if |entry| < 4 || entry[2] != ' ' {
          return Err(InvalidEntry);
        }
        if !(entry[0] < 128 as char && entry[1] < 128 as char) {
          return Err(InvalidStatus);
        }
        var status := entry[..2];
        var path := RelativePath(entry[3..], prefix);
        if path.Err? {
          return Err(path.error);
        }
        paths := paths + {path.value};
        if IsRename(status) {
          if index >= |entries| || entries[index] == "" {
            return Err(TruncatedRename);
          }
          var original := RelativePath(entries[index], prefix);
          if original.Err? {
            return Err(original.error);
          }
          paths := paths + {original.value};
          index := index + 1;
        }
      }
      ghost var parsed := ParseEntry(entries, i, prefix).value;
      assert paths == before + parsed.paths && index == parsed.next;
      AddTwice(before, parsed.paths, ParseFrom(entries, index, prefix));
    }
    var sorted := SortSet(paths);
    r := Ok(sorted);
  }

  lemma AddTwice(a: set<string>, b: set<string>, r: Result<set<string>, PathError>)
    ensures Adding(a, Adding(b, r)) == Adding(a + b, r)
  {
    if r.Ok? { assert a + (b + r.value) == a + b + r.value; }
  }

  // ------------------------------------------------------------------
  // Round trip
  // ------------------------------------------------------------------

  /** One status record; paths are relative to the package root. */
  datatype Change = Change(status: string, path: string, original: Option<string>)

  ghost predicate ValidPath(path: string) {
    IsNormalized(path) && NUL !in path
  }

  ghost predicate ValidChange(c: Change) {
    && |c.status| == 2 && c.status[0] < 128 as char && c.status[1] < 128 as char
    && NUL !in c.status && '/' !in c.status && '\\' !in c.status
    && ValidPath(c.path)
    && (c.original.Some? <==> 'R' in c.status || 'C' in c.status)
    && (c.original.Some? ==> ValidPath(c.original.value))
  }

  function Under(prefix: string, path: string): string {
    if prefix == "" then path else prefix + "/" + path
  }

  /** One or two NUL-terminated entries. */
  function Entries(c: Change, prefix: string): seq<string> {
    [c.status + " " + Under(prefix, c.path)]
    + if c.original.Some? then [Under(prefix, c.original.value)] else []
  }

  function AllEntries(changes: seq<Change>, prefix: string): seq<string> {
    if changes == [] then [] else Entries(changes[0], prefix) + AllEntries(changes[1..], prefix)
  }

  /** git status --porcelain=v1 -z */
  function Print(changes: seq<Change>, prefix: string): string {
    Terminated(AllEntries(changes, prefix), NUL)
  }

  function PathsOf(c: Change): set<string> {
    {c.path} + if c.original.Some? then {c.original.value} else {}
  }

  function AllPaths(changes: seq<Change>): set<string> {
    if changes == [] then {} else PathsOf(changes[0]) + AllPaths(changes[1..])
  }

  lemma {:induction false} JoinConcat(a: seq<string>, b: seq<string>)
    requires a != [] && b != []
    ensures Join(a + b, '/') == Join(a, '/') + "/" + Join(b, '/')
  {
    if |a| == 1 {
      assert (a + b)[1..] == b;
    } else {
      JoinConcat(a[1..], b);
      assert (a + b)[1..] == a[1..] + b;
    }
  }

  lemma UnderIsNormalized(prefix: string, path: string)
    requires (prefix == "" || IsNormalized(prefix)) && IsNormalized(path)
    ensures IsNormalized(Under(prefix, path))
  {
    if prefix != "" {
      var a :| a != [] && (forall i :: 0 <= i < |a| ==> PlainPart(a[i])) && prefix == Join(a, '/');
      var b :| b != [] && (forall i :: 0 <= i < |b| ==> PlainPart(b[i])) && path == Join(b, '/');
      JoinConcat(a, b);
      assert forall i :: 0 <= i < |a + b| ==> PlainPart((a + b)[i]);
    }
  }

  /** A path under the prefix is returned without it. */
  lemma RelativeOfUnder(prefix: string, path: string)
    requires (prefix == "" || IsNormalized(prefix)) && IsNormalized(path)
    ensures RelativePath(Under(prefix, path), prefix) == Ok(path)
  {
    var full := Under(prefix, path);
    UnderIsNormalized(prefix, path);
    NormalizedIsFixed(full);
    assert ForwardSlashes(full) == full;
    if prefix != "" {
      assert full[|prefix| + 1..] == path;
    }
  }

  lemma NormalizedNonempty(path: string)
    requires IsNormalized(path)
    ensures path != ""
  {
    NormalizedIsFixed(path);
  }

  /** The loop reads back one printed record and goes on behind it. */
  lemma ChangeParses(entries: seq<string>, i: nat, c: Change, prefix: string)
    requires ValidChange(c) && (prefix == "" || IsNormalized(prefix))
    requires i + |Entries(c, prefix)| <= |entries| && entries[i..i + |Entries(c, prefix)|] == Entries(c, prefix)
    ensures ParseEntry(entries, i, prefix) == Ok(Parsed(PathsOf(c), i + |Entries(c, prefix)|))
  {
    hide RelativePath, IsNormalized;
    var printed := Entries(c, prefix);
    var e := c.status + " " + Under(prefix, c.path);
    assert entries[i] == entries[i..i + |printed|][0] == e;
    assert e[..2] == c.status && e[2] == ' ' && e[3..] == Under(prefix, c.path);
    RelativeOfUnder(prefix, c.path);
    NormalizedNonempty(c.path);
    if c.original.Some? {
      assert entries[i + 1] == entries[i..i + |printed|][1] == Under(prefix, c.original.value);
      RelativeOfUnder(prefix, c.original.value);
      NormalizedNonempty(c.original.value);
      assert PathsOf(c) == {c.path, c.original.value};
    } else {
      assert PathsOf(c) == {c.path};
    }
  }

  lemma {:induction false} ChangesParse(entries: seq<string>, i: nat, changes: seq<Change>, prefix: string)
    requires (forall k :: 0 <= k < |changes| ==> ValidChange(changes[k])) && (prefix == "" || IsNormalized(prefix))
    requires i + |AllEntries(changes, prefix)| <= |entries|
    requires entries[i..i + |AllEntries(changes, prefix)|] == AllEntries(changes, prefix)
    ensures ParseFrom(entries, i, prefix)
            == Adding(AllPaths(changes), ParseFrom(entries, i + |AllEntries(changes, prefix)|, prefix))
    decreases |changes|
  {
    hide ParseEntry, Entries, PathsOf, ValidChange, IsNormalized;
    if changes == [] {
      AddNothing(ParseFrom(entries, i, prefix));
    } else {
      var first := Entries(changes[0], prefix);
      var all := AllEntries(changes, prefix);
      CutWindow(entries, i, first, AllEntries(changes[1..], prefix));
      ChangeParses(entries, i, changes[0], prefix);
      ChangesParse(entries, i + |first|, changes[1..], prefix);
      AddTwice(PathsOf(changes[0]), AllPaths(changes[1..]), ParseFrom(entries, i + |all|, prefix));
    }
  }

  /** A window of the entries in two parts. */
  lemma CutWindow(entries: seq<string>, i: nat, first: seq<string>, rest: seq<string>)
    requires i + |first| + |rest| <= |entries| && entries[i..i + (|first| + |rest|)] == first + rest
    ensures entries[i..i + |first|] == first
    ensures entries[i + |first|..i + |first| + |rest|] == rest
  {
    var window := entries[i..i + (|first| + |rest|)];
    assert window[..|first|] == first && window[|first|..] == rest;
    assert entries[i..i + |first|] == window[..|first|];
    assert entries[i + |first|..i + |first| + |rest|] == window[|first|..];
  }

  lemma AddNothing(r: Result<set<string>, PathError>)
    ensures Adding({}, r) == r
  {
    if r.Ok? { assert {} + r.value == r.value; }
  }

  lemma {:induction false} EntriesFree(changes: seq<Change>, prefix: string)
    requires (forall k :: 0 <= k < |changes| ==> ValidChange(changes[k])) && NUL !in prefix
    ensures AllFree(AllEntries(changes, prefix), NUL)
  {
    if changes != [] {
      EntriesFree(changes[1..], prefix);
      assert ValidChange(changes[0]);
      assert AllFree(Entries(changes[0], prefix), NUL);
    }
  }

  lemma EmptyTail(entries: seq<string>, n: nat, prefix: string)
    requires |entries| == n + 1 && entries[n] == ""
    ensures ParseFrom(entries, n, prefix) == Ok({})
  {
    AddNothing(ParseFrom(entries, n + 1, prefix));
  }

  // ------------------------------------------------------------------
  // The package root
  // ------------------------------------------------------------------

  lemma {:induction false} JoinLast(parts: seq<string>)
    requires parts != [] && forall i :: 0 <= i < |parts| ==> parts[i] != "" && '/' !in parts[i]
    ensures var j := Join(parts, '/'); j != "" && j[|j| - 1] != '/'
  {
    if |parts| > 1 { JoinLast(parts[1..]); }
  }

  /** strip("/") leaves a normalized prefix alone. */
  lemma StripKeepsNormalized(prefix: string)
    requires IsNormalized(prefix)
    ensures Strip(prefix) == prefix
  {
    var parts :| parts != [] && (forall i :: 0 <= i < |parts| ==> PlainPart(parts[i])) && prefix == Join(parts, '/');
    JoinHead(parts);
    assert PlainPart(parts[0]) && parts[0][0] in parts[0];
    JoinLast(parts);
  }

  /** What a package root inside its repository strips to: nothing, a dot for the repository's own root, or a path. */
  ghost predicate IsRoot(prefix: string) {
    prefix == "" || prefix == "." || ValidPath(prefix)
  }

  /** git prints paths from the repository's root. */
  function FromRepository(prefix: string): string {
    if prefix == "." then "" else prefix
  }

  lemma {:induction false} DotBehindName(parts: seq<string>)
    requires parts != [] && PlainPart(parts[0])
    ensures !("./" <= Join(parts, '/'))
  {
    var j := Join(parts, '/');
    assert parts[0] == j[..|parts[0]|] && parts[0][0] == j[0];
    assert |parts[0]| > 1 ==> parts[0][1] == j[1] && parts[0][1] in parts[0];
    assert |parts[0]| == 1 ==> parts[0] == [j[0]];
  }

  /** Under the prefix "." every path is outside the root. */
  lemma DotRejects(path: string)
    requires IsNormalized(path)
    ensures RelativePath(path, ".") == Err(OutsideRoot)
  {
    NormalizedIsFixed(path);
    assert ForwardSlashes(path) == path;
    var parts :| parts != [] && (forall i :: 0 <= i < |parts| ==> PlainPart(parts[i])) && path == Join(parts, '/');
    DotBehindName(parts);
  }

  lemma DotRejectsAll(value: string)
    ensures RelativePath(value, ".").Err?
  {
    var path := ForwardSlashes(value);
    if NormalizedRelative(path).Ok? {
      var n := NormalizedRelative(path).value;
      AcceptedIsNormalized(path);
      if n != "." {
        NormalizedIsFixed(n);
        assert ForwardSlashes(n) == n;
        DotRejects(n);
      }
    }
  }

  lemma {:induction false} DotParses(entries: seq<string>, i: nat)
    requires i <= |entries|
    ensures (forall k :: i <= k < |entries| ==> entries[k] == "") ==> ParseFrom(entries, i, ".") == Ok({})
    ensures (exists k :: i <= k < |entries| && entries[k] != "") ==> ParseFrom(entries, i, ".").Err?
    decreases |entries| - i
  {
    hide RelativePath;
    if i < |entries| {
      if |entries[i]| >= 3 { DotRejectsAll(entries[i][3..]); }
      if entries[i] == "" {
        DotParses(entries, i + 1);
        AddNothing(ParseFrom(entries, i + 1, "."));
      }
    }
  }

  ghost predicate NoEntries(raw: string) {
    forall k :: 0 <= k < |Split(raw, NUL)| ==> Split(raw, NUL)[k] == ""
  }

  /** With the repository's own root as package root, only a status without entries is accepted. */
  lemma DotRootExact(raw: string, rootPrefix: string, r: Result<seq<string>, PathError>)
    requires Strip(rootPrefix) == "." && ParsesTo(raw, rootPrefix, r)
    ensures r.Ok? <==> NoEntries(raw)
    ensures r.Ok? ==> r.value == []
  {
    hide ParseFrom, Split;
    DotParses(Split(raw, NUL), 0);
    if r.Ok? { StrictlySortedUnique(r.value, []); }
  }

  lemma DotRejectsFirst(entries: seq<string>, c: Change)
    requires ValidChange(c) && entries != [] && entries[0] == c.status + " " + c.path
    ensures ParseFrom(entries, 0, ".") == Err(OutsideRoot)
  {
    hide RelativePath, IsNormalized;
    var e := entries[0];
    assert e[..2] == c.status && e[2] == ' ' && e[3..] == c.path;
    DotRejects(c.path);
    NormalizedNonempty(c.path);
  }

  lemma NoChanges(printed: string, prefix: string)
    ensures ParseFrom(Split(Print([], printed), NUL), 0, prefix) == Ok({})
  {
    assert Split("", NUL) == [""];
    EmptyTail([""], 0, prefix);
  }

  // ------------------------------------------------------------------
  // The round trip
  // ------------------------------------------------------------------

  lemma EntriesParse(changes: seq<Change>, prefix: string)
    requires (forall k :: 0 <= k < |changes| ==> ValidChange(changes[k])) && (prefix == "" || ValidPath(prefix))
    ensures ParseFrom(Split(Print(changes, prefix), NUL), 0, prefix) == Ok(AllPaths(changes))
  {
    hide ParseFrom, ValidChange, AllEntries, Split, Terminated, IsNormalized;
    var all := AllEntries(changes, prefix);
    EntriesFree(changes, prefix);
    SplitTerminated(all, NUL);
    var entries := all + [[]];
    assert entries[0..|all|] == all;
    ChangesParse(entries, 0, changes, prefix);
    EmptyTail(entries, |all|, prefix);
    assert AllPaths(changes) + {} == AllPaths(changes);
  }

  lemma DotEntriesFail(changes: seq<Change>)
    requires (forall k :: 0 <= k < |changes| ==> ValidChange(changes[k])) && changes != []
    ensures ParseFrom(Split(Print(changes, ""), NUL), 0, ".") == Err(OutsideRoot)
  {
    hide ParseFrom, Split, Terminated, IsNormalized;
    var all := AllEntries(changes, "");
    EntriesFree(changes, "");
    SplitTerminated(all, NUL);
    assert ValidChange(changes[0]) && all[0] == changes[0].status + " " + changes[0].path;
    assert (all + [[]])[0] == all[0];
    DotRejectsFirst(all + [[]], changes[0]);
  }

  /**
   Printing and parsing returns the sorted list of exactly the package-relative paths, with one
   exception: when the package root is the repository's own root, any change at all is an error.
   */
  lemma PorcelainRoundTrip(changes: seq<Change>, rootPrefix: string, r: Result<seq<string>, PathError>)
    requires (forall k :: 0 <= k < |changes| ==> ValidChange(changes[k])) && IsRoot(Strip(rootPrefix))
    requires ParsesTo(Print(changes, FromRepository(Strip(rootPrefix))), rootPrefix, r)
    ensures r.Ok? <==> changes == [] || Strip(rootPrefix) != "."
    ensures r.Ok? ==> StrictlySorted(r.value) && forall p :: p in r.value <==> p in AllPaths(changes)
    ensures r.Err? ==> r == Err(OutsideRoot)
  {
    var prefix := Strip(rootPrefix);
    hide Strip, ParseFrom, Split, Print, StrictlySorted, ValidChange, ValidPath;
    if prefix != "." {
      EntriesParse(changes, prefix);
    } else if changes == [] {
      NoChanges("", prefix);
    } else {
      DotEntriesFail(changes);
    }
  }

  /** What is wrong with an entry, if anything: its shape, its status, its path, or its place. */
  function EntryFault(entry: string, prefix: string): Option<PathError> {
    if |entry| < 4 || entry[2] != ' ' then Some(InvalidEntry)
    else if entry[0] >= 128 as char || entry[1] >= 128 as char then Some(InvalidStatus)
    else
      var path := NormalizedRelative(ForwardSlashes(entry[3..]));
      if path.Err? then Some(path.error)
      else if prefix != "" && !(prefix + "/" <= path.value) then Some(OutsideRoot)
      else None
  }

  /** The first entry that is wrong decides the error, whatever follows it. */
  lemma FaultyEntryRejected(changes: seq<Change>, entry: string, tail: seq<string>, raw: string, rootPrefix: string,
                            r: Result<seq<string>, PathError>)
    requires forall k :: 0 <= k < |changes| ==> ValidChange(changes[k])
    requires Strip(rootPrefix) == "" || ValidPath(Strip(rootPrefix))
    requires entry != "" && EntryFault(entry, Strip(rootPrefix)).Some?
    requires Split(raw, NUL) == AllEntries(changes, Strip(rootPrefix)) + [entry] + tail
    requires ParsesTo(raw, rootPrefix, r)
    ensures r == Err(EntryFault(entry, Strip(rootPrefix)).value)
  {
    var prefix := Strip(rootPrefix);
    assert prefix == "" || IsNormalized(prefix);
    hide Strip, ParseFrom, AllEntries, ValidChange, ValidPath, IsNormalized, EntryFault, Split;
    FaultyParse(changes, entry, tail, prefix);
  }

  lemma FaultyParse(changes: seq<Change>, entry: string, tail: seq<string>, prefix: string)
    requires (forall k :: 0 <= k < |changes| ==> ValidChange(changes[k])) && (prefix == "" || IsNormalized(prefix))
    requires entry != "" && EntryFault(entry, prefix).Some?
    ensures ParseFrom(AllEntries(changes, prefix) + [entry] + tail, 0, prefix) == Err(EntryFault(entry, prefix).value)
  {
    hide ParseFrom, AllEntries, ValidChange, IsNormalized, EntryFault;
    var all := AllEntries(changes, prefix);
    FrontOf(all, entry, tail);
    FaultAt(all + [entry] + tail, |all|, prefix);
    ChangesParse(all + [entry] + tail, 0, changes, prefix);
  }

  lemma FrontOf(all: seq<string>, entry: string, tail: seq<string>)
    ensures var entries := all + [entry] + tail;
            |entries| > |all| && entries[0..|all|] == all && entries[|all|] == entry
  {
  }

  lemma FaultAt(entries: seq<string>, i: nat, prefix: string)
    requires i < |entries| && entries[i] != "" && EntryFault(entries[i], prefix).Some?
    ensures ParseFrom(entries, i, prefix) == Err(EntryFault(entries[i], prefix).value)
  {
    hide NormalizedRelative;
  }

  // ------------------------------------------------------------------
  // A rename or copy without its original path
  // ------------------------------------------------------------------

  /** What is printed when the original path of one rename or copy is lost, the changes after it being complete. */
  function PrintLost(changes: seq<Change>, c: Change, rest: seq<Change>, prefix: string): string {
    Terminated(LostEntries(changes, c, rest, prefix), NUL)
  }

  function LostEntries(changes: seq<Change>, c: Change, rest: seq<Change>, prefix: string): seq<string> {
    AllEntries(changes, prefix) + [StatusEntry(c, prefix)] + AllEntries(rest, prefix)
  }

  function StatusEntry(c: Change, prefix: string): string {
    c.status + " " + Under(prefix, c.path)
  }

  ghost predicate ValidChanges(changes: seq<Change>) {
    forall k :: 0 <= k < |changes| ==> ValidChange(changes[k])
  }

  /**
   With an empty prefix, whether the changes after a lost original path still parse, when the first
   one's status entry is taken for that path. What is left of a rename is then read as an entry.
   */
  predicate Swallowed(rest: seq<Change>)
    decreases rest, 1
  {
    rest != [] && (rest[0].original.Some? ==> ReadsAsEntry(rest[0].original.value, rest[1..]))
  }

  /** The path looks like a status entry of a contained path; a rename's needs yet another entry to swallow. */
  predicate ReadsAsEntry(path: string, rest: seq<Change>)
    decreases rest, 2
  {
    && |path| >= 4 && path[2] == ' ' && path[0] < 128 as char && path[1] < 128 as char
    && NormalizedRelative(path[3..]).Ok?
    && (IsRename(path[..2]) ==> Swallowed(rest))
  }

  lemma JoinHeadExtends(front: string, parts: seq<string>)
    requires parts != []
    ensures Join([front + parts[0]] + parts[1..], '/') == front + Join(parts, '/')
  {
    var all := [front + parts[0]] + parts[1..];
    assert all[1..] == parts[1..];
  }

  lemma StatusedPart(status: string, part: string)
    requires |status| == 2 && '/' !in status && '\\' !in status && PlainPart(part)
    ensures PlainPart(status + " " + part)
  {
    var front := status + " ";
    assert '/' !in front && '\\' !in front;
  }

  /** A status entry, read as a path, is a normalized path. */
  lemma StatusEntryIsPath(status: string, path: string)
    requires |status| == 2 && '/' !in status && '\\' !in status && IsNormalized(path)
    ensures IsNormalized(status + " " + path)
  {
    var parts :| parts != [] && (forall i :: 0 <= i < |parts| ==> PlainPart(parts[i])) && path == Join(parts, '/');
    var front := status + " ";
    StatusedPart(status, parts[0]);
    JoinHeadExtends(front, parts);
    hide *;
    PlainJoin([front + parts[0]] + parts[1..]);
  }

  lemma PlainJoin(parts: seq<string>)
    requires parts != [] && forall i :: 0 <= i < |parts| ==> PlainPart(parts[i])
    ensures IsNormalized(Join(parts, '/'))
  {
  }

  lemma StatusEntryRelative(c: Change, prefix: string)
    requires ValidChange(c) && (prefix == "" || ValidPath(prefix))
    ensures RelativePath(StatusEntry(c, prefix), prefix)
            == if prefix == "" then Ok(StatusEntry(c, "")) else Err(OutsideRoot)
  {
    var e := StatusEntry(c, prefix);
    UnderIsNormalized(prefix, c.path);
    StatusEntryIsPath(c.status, Under(prefix, c.path));
    NormalizedIsFixed(e);
    assert '\\' !in e by { NormalizedHasNoBackslash(e); }
    assert ForwardSlashes(e) == e;
    if prefix != "" { SlashMoves(c.status, prefix, c.path); }
  }

  lemma NormalizedHasNoBackslash(path: string)
    requires IsNormalized(path)
    ensures '\\' !in path
  {
    NormalizedIsFixed(path);
  }

  function FirstSlash(s: string): (k: nat)
    requires '/' in s
    ensures k < |s| && s[k] == '/' && '/' !in s[..k]
  {
    if s[0] == '/' then 0 else 1 + FirstSlash(s[1..])
  }

  /** Three characters further on, the prefix no longer starts the text: its first slash has moved. */
  lemma SlashMoves(status: string, prefix: string, path: string)
    requires |status| == 2 && '/' !in status
    ensures !(prefix + "/" <= status + " " + (prefix + "/" + path))
  {
    var marker, text := prefix + "/", status + " " + (prefix + "/" + path);
    assert marker[|marker| - 1] == '/';
    var k := FirstSlash(marker);
    if k < 3 {
      assert text[k] != '/';
    } else {
      assert text[k] == marker[k - 3] && marker[k - 3] in marker[..k];
    }
  }

  /** The entries from i on are those of the changes and an empty rest. */
  ghost predicate EndsWith(entries: seq<string>, i: nat, rest: seq<Change>, prefix: string) {
    i <= |entries| && entries[i..] == AllEntries(rest, prefix) + [""]
  }

  lemma EndParses(entries: seq<string>, i: nat, rest: seq<Change>, prefix: string)
    requires ValidChanges(rest) && (prefix == "" || IsNormalized(prefix)) && EndsWith(entries, i, rest, prefix)
    ensures ParseFrom(entries, i, prefix) == Ok(AllPaths(rest))
  {
    hide EndsWith, ValidChange, IsNormalized, AllEntries, AllPaths, ParseFrom;
    EndTail(entries, i, rest, prefix);
    hide *;
    ChangesParse(entries, i, rest, prefix);
    EmptyTail(entries, i + |AllEntries(rest, prefix)|, prefix);
    AddEmpty(AllPaths(rest));
  }

  lemma EndTail(entries: seq<string>, i: nat, rest: seq<Change>, prefix: string)
    requires EndsWith(entries, i, rest, prefix)
    ensures var all := AllEntries(rest, prefix);
            |entries| == i + |all| + 1 && entries[i..i + |all|] == all && entries[i + |all|] == ""
  {
    hide AllEntries;
    TailShape(entries, i, AllEntries(rest, prefix));
  }

  lemma TailShape(entries: seq<string>, i: nat, all: seq<string>)
    requires i <= |entries| && entries[i..] == all + [""]
    ensures |entries| == i + |all| + 1 && entries[i..i + |all|] == all && entries[i + |all|] == ""
  {
    var tail := entries[i..];
    assert |tail| == |all| + 1 && tail[..|all|] == all && tail[|all|] == "";
    assert entries[i..i + |all|] == tail[..|all|] && entries[i + |all|] == tail[|all|];
  }

  lemma EndStep(entries: seq<string>, i: nat, rest: seq<Change>, prefix: string)
    requires EndsWith(entries, i, rest, prefix)
    ensures i < |entries|
    ensures rest == [] ==> entries[i] == "" && |entries| == i + 1
    ensures rest != [] ==> entries[i] == StatusEntry(rest[0], prefix)
    ensures rest != [] && rest[0].original.None? ==> EndsWith(entries, i + 1, rest[1..], prefix)
    ensures rest != [] && rest[0].original.Some? ==>
              i + 1 < |entries| && entries[i + 1] == Under(prefix, rest[0].original.value)
              && EndsWith(entries, i + 2, rest[1..], prefix)
  {
    hide Under;
    var tail := entries[i..];
    assert tail[0] == entries[i];
    if rest != [] {
      var n := |Entries(rest[0], prefix)|;
      assert tail == Entries(rest[0], prefix) + (AllEntries(rest[1..], prefix) + [""]);
      assert tail[n..] == AllEntries(rest[1..], prefix) + [""] && entries[i + n..] == tail[n..];
      if n == 2 { assert tail[1] == entries[i + 1]; }
    }
  }

  /** Entry i is taken for a lost original path, and the loop goes on behind it. */
  ghost predicate Swallows(entries: seq<string>, i: nat, prefix: string) {
    i < |entries| && entries[i] != "" && RelativePath(entries[i], prefix).Ok? && ParseFrom(entries, i + 1, prefix).Ok?
  }

  lemma {:induction false} SwallowExact(entries: seq<string>, i: nat, rest: seq<Change>)
    requires ValidChanges(rest) && EndsWith(entries, i, rest, "")
    ensures Swallows(entries, i, "") <==> Swallowed(rest)
    decreases |rest|
  {
    EndStep(entries, i, rest, "");
    if rest != [] {
      var d := rest[0];
      assert ValidChange(d) && ValidChanges(rest[1..]);
      StatusEntryRelative(d, "");
      hide RelativePath, ValidChange, EndsWith, ParseFrom, ReadsAsEntry;
      if d.original.None? {
        EndParses(entries, i + 1, rest[1..], "");
      } else {
        SwallowExact(entries, i + 2, rest[1..]);
        PathAsEntry(entries, i + 1, d.original.value, rest[1..]);
      }
    }
  }

  lemma TailIsRelative(path: string)
    requires IsNormalized(path) && |path| >= 4
    ensures RelativePath(path[3..], "").Ok? <==> NormalizedRelative(path[3..]).Ok?
  {
    NormalizedHasNoBackslash(path);
    hide NormalizedRelative, IsNormalized;
    assert ForwardSlashes(path[3..]) == path[3..];
  }

  /** Parsing from an entry on succeeds when the entry parses and the rest does. */
  lemma ParseStep(entries: seq<string>, i: nat, prefix: string)
    requires i < |entries|
    ensures var parsed := ParseEntry(entries, i, prefix);
            ParseFrom(entries, i, prefix).Ok? <==> parsed.Ok? && ParseFrom(entries, parsed.value.next, prefix).Ok?
  {
    hide ParseEntry;
  }

  /** A path left behind parses on exactly when it reads as an entry. */
  lemma PathAsEntry(entries: seq<string>, i: nat, path: string, rest: seq<Change>)
    requires i < |entries| && entries[i] == path && ValidPath(path)
    requires ValidChanges(rest) && EndsWith(entries, i + 1, rest, "")
    requires Swallows(entries, i + 1, "") <==> Swallowed(rest)
    ensures ParseFrom(entries, i, "").Ok? <==> ReadsAsEntry(path, rest)
  {
    NormalizedNonempty(path);
    EndParses(entries, i + 1, rest, "");
    ParseStep(entries, i, "");
    if |path| >= 4 { TailIsRelative(path); }
    hide EndsWith, ValidChanges, IsNormalized, Swallowed, NormalizedRelative, RelativePath, ParseFrom, ValidPath,
         IsRename;
  }

  lemma LostEntriesFree(changes: seq<Change>, c: Change, rest: seq<Change>, prefix: string)
    requires ValidChanges(changes) && ValidChange(c) && ValidChanges(rest) && (prefix == "" || ValidPath(prefix))
    ensures Split(PrintLost(changes, c, rest, prefix), NUL) == LostEntries(changes, c, rest, prefix) + [""]
  {
    EntriesFree(changes, prefix);
    EntriesFree(rest, prefix);
    PrefixFree(prefix, c);
    hide AllEntries, Split, Terminated, ValidChange, ValidPath, Under, StatusEntry;
    FreeParts(AllEntries(changes, prefix), StatusEntry(c, prefix), AllEntries(rest, prefix));
    hide *;
    SplitTerminated(LostEntries(changes, c, rest, prefix), NUL);
    PrintLostIs(changes, c, rest, prefix);
  }

  lemma FreeParts(a: seq<string>, e: string, b: seq<string>)
    requires AllFree(a, NUL) && NUL !in e && AllFree(b, NUL)
    ensures AllFree(a + [e] + b, NUL)
  {
  }

  lemma PrintLostIs(changes: seq<Change>, c: Change, rest: seq<Change>, prefix: string)
    ensures PrintLost(changes, c, rest, prefix) == Terminated(LostEntries(changes, c, rest, prefix), NUL)
  {
  }

  lemma LostShape(changes: seq<Change>, c: Change, rest: seq<Change>, prefix: string)
    ensures var entries, all := LostEntries(changes, c, rest, prefix) + [""], AllEntries(changes, prefix);
            && |entries| > |all| && entries[0..|all|] == all && entries[|all|] == StatusEntry(c, prefix)
            && EndsWith(entries, |all| + 1, rest, prefix)
  {
    hide AllEntries, StatusEntry;
    var entries, all := LostEntries(changes, c, rest, prefix) + [""], AllEntries(changes, prefix);
    assert entries[|all| + 1..] == AllEntries(rest, prefix) + [""];
  }

  /** Parsing reaches the lost original path, and the rest decides. */
  lemma LostParses(changes: seq<Change>, c: Change, rest: seq<Change>, prefix: string)
    requires ValidChanges(changes) && (prefix == "" || ValidPath(prefix))
    ensures var entries := LostEntries(changes, c, rest, prefix) + [""];
            var i := |AllEntries(changes, prefix)|;
            && i < |entries|
            && ParseFrom(entries, 0, prefix) == Adding(AllPaths(changes), ParseFrom(entries, i, prefix))
  {
    LostShape(changes, c, rest, prefix);
    hide AllEntries, ValidChange, LostEntries, ParseFrom, IsNormalized;
    ChangesParse(LostEntries(changes, c, rest, prefix) + [""], 0, changes, prefix);
  }

  /** The rename itself parses, up to its missing original path. */
  lemma LostRename(entries: seq<string>, i: nat, c: Change, prefix: string)
    requires ValidChange(c) && c.original.Some? && (prefix == "" || ValidPath(prefix))
    requires i + 1 < |entries| && entries[i] == StatusEntry(c, prefix)
    ensures entries[i + 1] == "" ==> ParseFrom(entries, i, prefix) == Err(TruncatedRename)
    ensures entries[i + 1] != "" && RelativePath(entries[i + 1], prefix).Err? ==>
              ParseFrom(entries, i, prefix) == Err(RelativePath(entries[i + 1], prefix).error)
    ensures entries[i + 1] != "" && RelativePath(entries[i + 1], prefix).Ok? ==>
              ParseFrom(entries, i, prefix)
              == Adding({c.path, RelativePath(entries[i + 1], prefix).value}, ParseFrom(entries, i + 2, prefix))
  {
    hide RelativePath, IsNormalized;
    var e := entries[i];
    assert e[..2] == c.status && e[2] == ' ' && e[3..] == Under(prefix, c.path);
    RelativeOfUnder(prefix, c.path);
    NormalizedNonempty(c.path);
  }

  lemma LostOutcome(changes: seq<Change>, c: Change, rest: seq<Change>, prefix: string)
    requires ValidChanges(changes) && ValidChange(c) && c.original.Some? && ValidChanges(rest)
    requires prefix == "" || ValidPath(prefix)
    ensures var r := ParseFrom(Split(PrintLost(changes, c, rest, prefix), NUL), 0, prefix);
            && (rest == [] ==> r == Err(TruncatedRename))
            && (rest != [] && prefix != "" ==> r == Err(OutsideRoot))
            && (prefix == "" ==> (r.Ok? <==> Swallowed(rest)))
            && (r.Ok? ==> StatusEntry(rest[0], "") in r.value)
  {
    var entries, i := LostEntries(changes, c, rest, prefix) + [""], |AllEntries(changes, prefix)|;
    LostEntriesFree(changes, c, rest, prefix);
    LostShape(changes, c, rest, prefix);
    LostParses(changes, c, rest, prefix);
    EndStep(entries, i + 1, rest, prefix);
    LostRename(entries, i, c, prefix);
    if rest != [] { StatusEntryRelative(rest[0], prefix); }
    if prefix == "" { SwallowExact(entries, i + 1, rest); }
    hide Split, PrintLost, LostEntries, AllEntries, EndsWith, ValidChange, RelativePath, ParseFrom, Swallowed,
         ValidPath;
  }

  lemma DotLost(changes: seq<Change>, c: Change, rest: seq<Change>)
    requires ValidChanges(changes) && ValidChange(c) && ValidChanges(rest)
    ensures ParseFrom(Split(PrintLost(changes, c, rest, ""), NUL), 0, ".") == Err(OutsideRoot)
  {
    LostEntriesFree(changes, c, rest, "");
    var all := LostEntries(changes, c, rest, "") + [""];
    var first := if changes == [] then c else changes[0];
    assert ValidChange(first) && all[0] == first.status + " " + first.path;
    hide ParseFrom, Split, PrintLost, LostEntries;
    DotRejectsFirst(all, first);
  }

  /**
   A rename or copy without its original path is rejected wherever it stands, with one exception:
   under an empty prefix the status entry of the next change is taken for the missing path, and
   parsing succeeds exactly when what that leaves behind reads as entries again; the result then
   lists a status entry as a path.
   */
  lemma TruncatedRenameRejected(changes: seq<Change>, c: Change, rest: seq<Change>, rootPrefix: string,
                                r: Result<seq<string>, PathError>)
    requires ValidChanges(changes) && ValidChange(c) && c.original.Some? && ValidChanges(rest)
    requires IsRoot(Strip(rootPrefix))
    requires ParsesTo(PrintLost(changes, c, rest, FromRepository(Strip(rootPrefix))), rootPrefix, r)
    ensures rest == [] && Strip(rootPrefix) != "." ==> r == Err(TruncatedRename)
    ensures rest != [] && Strip(rootPrefix) != "" ==> r == Err(OutsideRoot)
    ensures Strip(rootPrefix) == "." ==> r == Err(OutsideRoot)
    ensures Strip(rootPrefix) == "" ==> (r.Ok? <==> Swallowed(rest))
    ensures r.Ok? ==> StatusEntry(rest[0], "") in r.value
  {
    var prefix := Strip(rootPrefix);
    hide Strip, ParseFrom, Split, PrintLost, StrictlySorted, ValidChange, ValidPath, Swallowed;
    if prefix == "." { DotLost(changes, c, rest); } else { LostOutcome(changes, c, rest, prefix); }
  }

  const LOST := Change("R ", "b", Some("a"))
  const NEXT := Change(" M", "a", None)

  lemma WitnessesAreValid()
    ensures ValidChange(LOST) && ValidChange(NEXT) && StatusEntry(NEXT, "") == " M a"
  {
    SinglePath("a");
    SinglePath("b");
    hide ValidPath, IsRename;
    StatusKinds();
  }

  lemma StatusKinds()
    ensures IsRename("R ") && !IsRename(" M")
  {
  }

  lemma WitnessesSorted()
    ensures StrictlySorted([" M a", "b"])
  {
  }

  /** A rename of "a" to "b" without its original path, before a modification of "a", parses to a wrong list. */
  lemma LostOriginalIsAccepted(r: Result<seq<string>, PathError>)
    requires ParsesTo(PrintLost([], LOST, [NEXT], ""), "", r)
    ensures r == Ok([" M a", "b"])
  {
    assert LOST.original.Some? && NEXT.original.None? && LOST.path == "b" && Strip("") == "";
    WitnessesAreValid();
    WitnessesSorted();
    hide LOST, NEXT, Split, PrintLost, ParseFrom, ValidChange, StatusEntry, StrictlySorted, Strip;
    SwallowOne(LOST, NEXT);
    StrictlySortedUnique(r.value, [" M a", "b"]);
  }

  lemma SwallowOne(c: Change, d: Change)
    requires ValidChange(c) && c.original.Some? && ValidChange(d) && d.original.None?
    ensures ParseFrom(Split(PrintLost([], c, [d], ""), NUL), 0, "") == Ok({c.path, StatusEntry(d, "")})
  {
    var entries := LostEntries([], c, [d], "") + [""];
    assert ValidChanges([d]) && ValidChanges([]) && [d][1..] == [];
    hide *;
    NoEntriesPrinted();
    LostEntriesFree([], c, [d], "");
    LostShape([], c, [d], "");
    EndStep(entries, 1, [d], "");
    assert EndsWith(entries, 2, [], "") && entries[1] == StatusEntry(d, "");
    LostRename(entries, 0, c, "");
    StatusEntryRelative(d, "");
    EndParses(entries, 2, [], "");
    AddEmpty({c.path, StatusEntry(d, "")});
  }

  lemma NoEntriesPrinted()
    ensures AllEntries([], "") == [] && AllPaths([]) == {}
  {
  }

  lemma AddEmpty(paths: set<string>)
    ensures Adding(paths, Ok({})) == Ok(paths)
  {
    assert paths + {} == paths;
  }

  lemma SinglePath(path: string)
    requires PlainPart(path) && NUL !in path
    ensures ValidPath(path)
  {
    assert Join([path], '/') == path;
  }

  lemma PrefixFree(prefix: string, c: Change)
    requires ValidChange(c) && (prefix == "" || ValidPath(prefix))
    ensures NUL !in StatusEntry(c, prefix)
  {
  }
}
