/**
 The GRIB2 walker that extracts the hybrid vertical coefficients (FM 92 GRIB edition 2,
 Sections 0, 4 and 8): a two-level loop over length fields.
 */
module Grib2 {
  import opened Wrappers
  import opened Bytes

  /** "GRIB" and "7777". */
  const START: seq<Byte> := [71, 82, 73, 66]
  const END: seq<Byte> := [55, 55, 55, 55]

  datatype GribError =
    | InvalidBoundary
    | WrongEdition
    | TruncatedMessage
    | NoEndMarker
    | TruncatedSectionHeader
    | InvalidSectionLength
    | TruncatedProductSection
    | OddCoordinateCount
    | CoordinatesOverlapTemplate
    | NonFiniteCoefficient
    | NoCoefficients
    | InconsistentArrays
    | InvalidVerticalGrid

  /** The 32 bits of an IEEE 754 single. */
  type Single = nat

  datatype Section = Section(number: Byte, body: seq<Byte>)
  datatype Message = Message(reserved: seq<Byte>, sections: seq<Section>)
  datatype Grid = Grid(a: seq<Single>, b: seq<Single>)

  // ------------------------------------------------------------------
  // The format: what a sequence of messages prints to
  // ------------------------------------------------------------------

  function PrintSection(s: Section): (bytes: seq<Byte>) {
    BigEndian(5 + |s.body|, 4) + [s.number] + s.body
  }

  function PrintSections(sections: seq<Section>): (bytes: seq<Byte>) {
    if sections == [] then [] else PrintSection(sections[0]) + PrintSections(sections[1..])
  }

  function PrintMessage(m: Message): (bytes: seq<Byte>) {
    var body := PrintSections(m.sections);
    START + m.reserved + [2] + BigEndian(20 + |body|, 8) + body + END
  }

  function Print(messages: seq<Message>): (bytes: seq<Byte>) {
    if messages == [] then [] else PrintMessage(messages[0]) + Print(messages[1..])
  }

  /** The number of coordinate values a product section declares. */
  function CoordinateCount(body: seq<Byte>): nat
    requires |body| >= 4
  {
    FromBigEndian(body[0..2])
  }

  /** Big-endian singles, as struct.iter_unpack(">f") reads them. */
  function Singles(bytes: seq<Byte>): (values: seq<Single>)
    ensures |values| == |bytes| / 4
  {
    seq(|bytes| / 4, i requires 0 <= i < |bytes| / 4 => FromBigEndian(bytes[4 * i..4 * i + 4]))
  }

  predicate Finite(v: Single) {
    v / 0x80_0000 % 256 != 255
  }

  predicate AllFinite(values: seq<Single>) {
    forall i :: 0 <= i < |values| ==> Finite(values[i])
  }

  /** The values at the end of a product section. */
  function Coordinates(body: seq<Byte>): seq<Single>
    requires |body| >= 4 && 4 * CoordinateCount(body) <= |body|
  {
    Singles(body[|body| - 4 * CoordinateCount(body)..])
  }

  function CheckSection(s: Section): (error: Option<GribError>) {
    if s.number != 4 then None
    else if |s.body| < 4 then Some(TruncatedProductSection)
    else
      var count := CoordinateCount(s.body);
      if count == 0 then None
      else if count % 2 != 0 then Some(OddCoordinateCount)
      else if 4 * count > |s.body| - 4 then Some(CoordinatesOverlapTemplate)
      else if !AllFinite(Coordinates(s.body)) then Some(NonFiniteCoefficient)
      else None
  }

  predicate ValidSection(s: Section) {
    5 + |s.body| < U32_LIMIT && CheckSection(s) == None
  }

  predicate ValidSections(sections: seq<Section>) {
    forall i :: 0 <= i < |sections| ==> ValidSection(sections[i])
  }

  predicate ValidMessage(m: Message) {
    |m.reserved| == 3 && ValidSections(m.sections) && 20 + |PrintSections(m.sections)| < U64_LIMIT
  }

  predicate ValidMessages(messages: seq<Message>) {
    forall i :: 0 <= i < |messages| ==> ValidMessage(messages[i])
  }

  // ------------------------------------------------------------------
  // Candidates and the final choice
  // ------------------------------------------------------------------

  predicate BearsCoordinates(s: Section) {
    s.number == 4 && |s.body| >= 4 && 0 < 4 * CoordinateCount(s.body) <= |s.body|
  }

  function Halves(values: seq<Single>): Grid {
    Grid(values[..|values| / 2], values[|values| / 2..])
  }

  function CandidateOf(s: Section): seq<Grid> {
    if BearsCoordinates(s) then [Halves(Coordinates(s.body))] else []
  }

  function CandidatesOf(sections: seq<Section>): seq<Grid> {
    if sections == [] then [] else CandidateOf(sections[0]) + CandidatesOf(sections[1..])
  }

  function Candidates(messages: seq<Message>): seq<Grid> {
    if messages == [] then [] else CandidatesOf(messages[0].sections) + Candidates(messages[1..])
  }

  /** Numeric equality of finite singles: the two zeros are equal. */
  predicate SameValue(x: Single, y: Single) {
    x == y || (x % 0x8000_0000 == 0 && y % 0x8000_0000 == 0)
  }

  predicate SameValues(x: seq<Single>, y: seq<Single>) {
    |x| == |y| && forall i :: 0 <= i < |x| ==> SameValue(x[i], y[i])
  }

  predicate SameGrid(x: Grid, y: Grid) {
    SameValues(x.a, y.a) && SameValues(x.b, y.b)
  }

  function Choose(candidates: seq<Grid>): Result<Grid, GribError> {
    if candidates == [] then Err(NoCoefficients)
    else if exists i :: 1 <= i < |candidates| && !SameGrid(candidates[i], candidates[0]) then Err(InconsistentArrays)
    else if |candidates[0].a| < 2 || |candidates[0].a| != |candidates[0].b| then Err(InvalidVerticalGrid)
    else Ok(candidates[0])
  }

  // ------------------------------------------------------------------
  // The walk as a function
  // ------------------------------------------------------------------

  function Prepend<T>(done: seq<T>, rest: Result<seq<T>, GribError>): Result<seq<T>, GribError> {
    match rest
    case Ok(more) => Ok(done + more)
    case Err(error) => Err(error)
  }

  lemma PrependNothing<T>(rest: Result<seq<T>, GribError>)
    ensures Prepend([], rest) == rest
  {
    if rest.Ok? { assert [] + rest.value == rest.value; }
  }

  lemma PrependTwice<T>(done: seq<T>, x: T, rest: Result<seq<T>, GribError>)
    ensures Prepend(done, Prepend([x], rest)) == Prepend(done + [x], rest)
  {
    if rest.Ok? { assert done + ([x] + rest.value) == done + [x] + rest.value; }
  }

  function WalkSections(raw: seq<Byte>, cursor: nat, limit: nat): Result<seq<Section>, GribError>
    requires cursor <= limit <= |raw|
    decreases limit - cursor
  {
    if cursor == limit then Ok([])
    else if cursor + 5 > limit then Err(TruncatedSectionHeader)
    else
      var length := FromBigEndian(raw[cursor..cursor + 4]);
      if length < 5 || cursor + length > limit then Err(InvalidSectionLength)
      else
        var s := Section(raw[cursor + 4], raw[cursor + 5..cursor + length]);
        match CheckSection(s)
        case Some(error) => Err(error)
        case None =>
          Prepend([s], WalkSections(raw, cursor + length, limit))
  }

  /** The error of the message header at offset, if any. */
  function CheckHeader(raw: seq<Byte>, offset: nat): (error: Option<GribError>)
    requires offset < |raw|
  {
    if offset + 16 > |raw| || raw[offset..offset + 4] != START then Some(InvalidBoundary)
    else if raw[offset + 7] != 2 then Some(WrongEdition)
    else
      var length := FromBigEndian(raw[offset + 8..offset + 16]);
      if length < 20 || offset + length > |raw| then Some(TruncatedMessage)
      else if raw[offset + length - 4..offset + length] != END then Some(NoEndMarker)
      else None
  }

  function MessageLength(raw: seq<Byte>, offset: nat): (length: nat)
    requires offset < |raw| && CheckHeader(raw, offset) == None
    ensures 20 <= length <= |raw| - offset
  {
    FromBigEndian(raw[offset + 8..offset + 16])
  }

  function Walk(raw: seq<Byte>, offset: nat): Result<seq<Message>, GribError>
    requires offset <= |raw|
    decreases |raw| - offset
  {
    if offset == |raw| then Ok([])
    else if CheckHeader(raw, offset).Some? then Err(CheckHeader(raw, offset).value)
    else
      var end := offset + MessageLength(raw, offset);
      match WalkSections(raw, offset + 16, end - 4)
      case Err(error) => Err(error)
      case Ok(sections) =>
        Prepend([Message(raw[offset + 4..offset + 7], sections)], Walk(raw, end))
  }

  function Coefficients(raw: seq<Byte>): Result<Grid, GribError> {
    match Walk(raw, 0)
    case Err(error) => Err(error)
    case Ok(messages) => Choose(Candidates(messages))
  }

  // ------------------------------------------------------------------
  // The walk inverts printing
  // ------------------------------------------------------------------

  lemma SectionSplit(raw: seq<Byte>, cursor: nat, limit: nat, length: nat)
    requires 5 <= length && cursor + length <= limit <= |raw| && length < U32_LIMIT
    requires length == FromBigEndian(raw[cursor..cursor + 4])
    ensures raw[cursor..cursor + length]
            == PrintSection(Section(raw[cursor + 4], raw[cursor + 5..cursor + length]))
  {
    FromBigEndianRoundTrip(raw[cursor..cursor + 4]);
    var s := Section(raw[cursor + 4], raw[cursor + 5..cursor + length]);
    assert BigEndian(5 + |s.body|, 4) == raw[cursor..cursor + 4];
  }

  /** What the inner loop accepts is exactly what its sections print to. */
  lemma {:induction false} SectionsSound(raw: seq<Byte>, cursor: nat, limit: nat)
    requires cursor <= limit <= |raw| && WalkSections(raw, cursor, limit).Ok?
    ensures var sections := WalkSections(raw, cursor, limit).value;
            ValidSections(sections) && raw[cursor..limit] == PrintSections(sections)
    decreases limit - cursor
  {
    hide CheckSection, FromBigEndian, PrintSection;
    if cursor < limit {
      Pow256Values();
      var length := FromBigEndian(raw[cursor..cursor + 4]);
      FromBigEndianRoundTrip(raw[cursor..cursor + 4]);
      SectionSplit(raw, cursor, limit, length);
      SectionsSound(raw, cursor + length, limit);
      var s := Section(raw[cursor + 4], raw[cursor + 5..cursor + length]);
      var rest := WalkSections(raw, cursor + length, limit).value;
      assert ([s] + rest)[1..] == rest && ValidSection(s);
      assert raw[cursor..limit] == raw[cursor..cursor + length] + raw[cursor + length..limit];
    }
  }

  lemma SectionHead(raw: seq<Byte>, cursor: nat, s: Section)
    requires ValidSection(s) && cursor + |PrintSection(s)| <= |raw|
    requires raw[cursor..cursor + |PrintSection(s)|] == PrintSection(s)
    ensures |PrintSection(s)| == 5 + |s.body|
    ensures FromBigEndian(raw[cursor..cursor + 4]) == 5 + |s.body|
    ensures raw[cursor + 4] == s.number && raw[cursor + 5..cursor + (5 + |s.body|)] == s.body
  {
    Pow256Values();
    var n := |PrintSection(s)|;
    BigEndianRoundTrip(5 + |s.body|, 4);
    SliceOfSlice(raw, cursor, n, 0, 4);
    SliceOfSlice(raw, cursor, n, 5, n);
    assert raw[cursor + 4] == raw[cursor..cursor + n][4];
    assert PrintSection(s)[0..4] == BigEndian(5 + |s.body|, 4);
    assert PrintSection(s)[5..n] == s.body;
  }

  /** The inner loop accepts every run of valid sections, and reads them back. */
  lemma {:induction false} SectionsComplete(raw: seq<Byte>, cursor: nat, limit: nat, sections: seq<Section>)
    requires cursor <= limit <= |raw| && ValidSections(sections)
    requires raw[cursor..limit] == PrintSections(sections)
    ensures WalkSections(raw, cursor, limit) == Ok(sections)
    decreases |sections|
  {
    hide CheckSection, FromBigEndian, PrintSection;
    if sections != [] {
      var s, n := sections[0], |PrintSection(sections[0])|;
      SliceOfSlice(raw, cursor, limit - cursor, 0, n);
      SliceOfSlice(raw, cursor, limit - cursor, n, limit - cursor);
      assert PrintSections(sections)[0..n] == PrintSection(s);
      assert PrintSections(sections)[n..] == PrintSections(sections[1..]);
      SectionHead(raw, cursor, s);
      SectionsComplete(raw, cursor + n, limit, sections[1..]);
      assert sections == [s] + sections[1..];
    }
  }

  lemma Cut(raw: seq<Byte>, offset: nat, end: nat)
    requires offset + 20 <= end <= |raw|
    ensures raw[offset..end] == raw[offset..offset + 4] + raw[offset + 4..offset + 7] + [raw[offset + 7]]
                                + raw[offset + 8..offset + 16] + raw[offset + 16..end - 4] + raw[end - 4..end]
  {
  }

  lemma HeaderFields(raw: seq<Byte>, offset: nat)
    requires offset < |raw| && CheckHeader(raw, offset) == None
    ensures var length := MessageLength(raw, offset);
            && raw[offset..offset + 4] == START && raw[offset + 7] == 2
            && raw[offset + 8..offset + 16] == BigEndian(length, 8)
            && raw[offset + length - 4..offset + length] == END
  {
    FromBigEndianRoundTrip(raw[offset + 8..offset + 16]);
    hide BigEndian, FromBigEndian;
  }

  lemma PrintParts(m: Message)
    ensures PrintMessage(m) == START + m.reserved + [2] + BigEndian(20 + |PrintSections(m.sections)|, 8)
                               + PrintSections(m.sections) + END
  {
    hide BigEndian, PrintSections;
  }

  lemma MessageSplit(raw: seq<Byte>, offset: nat, sections: seq<Section>)
    requires offset < |raw| && CheckHeader(raw, offset) == None
    requires raw[offset + 16..offset + MessageLength(raw, offset) - 4] == PrintSections(sections)
    ensures raw[offset..offset + MessageLength(raw, offset)]
            == PrintMessage(Message(raw[offset + 4..offset + 7], sections))
  {
    hide *;
    HeaderFields(raw, offset);
    PrintParts(Message(raw[offset + 4..offset + 7], sections));
    Cut(raw, offset, offset + MessageLength(raw, offset));
  }

  lemma PrintCons(m: Message, rest: seq<Message>)
    ensures Print([m] + rest) == PrintMessage(m) + Print(rest)
    ensures ValidMessages([m] + rest) <==> ValidMessage(m) && ValidMessages(rest)
  {
    assert ([m] + rest)[1..] == rest;
    assert forall i :: 0 <= i < |rest| ==> rest[i] == ([m] + rest)[i + 1];
  }

  lemma MessageSound(raw: seq<Byte>, offset: nat, sections: seq<Section>)
    requires offset < |raw| && CheckHeader(raw, offset) == None
    requires WalkSections(raw, offset + 16, offset + MessageLength(raw, offset) - 4) == Ok(sections)
    ensures var m := Message(raw[offset + 4..offset + 7], sections);
            ValidMessage(m) && raw[offset..offset + MessageLength(raw, offset)] == PrintMessage(m)
  {
    Pow256Values();
    var end := offset + MessageLength(raw, offset);
    FromBigEndianRoundTrip(raw[offset + 8..offset + 16]);
    SectionsSound(raw, offset + 16, end - 4);
    MessageSplit(raw, offset, sections);
  }

  /** Acceptance tiles the buffer exactly by messages, and each message body exactly by sections. */
  lemma {:induction false} WalkSound(raw: seq<Byte>, offset: nat)
    requires offset <= |raw| && Walk(raw, offset).Ok?
    ensures var messages := Walk(raw, offset).value;
            ValidMessages(messages) && raw[offset..] == Print(messages)
    decreases |raw| - offset
  {
    hide CheckHeader, WalkSections, PrintMessage, ValidMessage, FromBigEndian;
    if offset < |raw| {
      var end := offset + MessageLength(raw, offset);
      var sections := WalkSections(raw, offset + 16, end - 4).value;
      var m := Message(raw[offset + 4..offset + 7], sections);
      MessageSound(raw, offset, sections);
      WalkSound(raw, end);
      PrintCons(m, Walk(raw, end).value);
      assert raw[offset..] == raw[offset..end] + raw[end..];
    }
  }

  lemma HeaderComplete(raw: seq<Byte>, offset: nat, m: Message)
    requires offset <= |raw| && ValidMessage(m)
    requires offset + |PrintMessage(m)| <= |raw| && raw[offset..offset + |PrintMessage(m)|] == PrintMessage(m)
    ensures CheckHeader(raw, offset) == None && MessageLength(raw, offset) == |PrintMessage(m)|
    ensures raw[offset + 4..offset + 7] == m.reserved
    ensures raw[offset + 16..offset + |PrintMessage(m)| - 4] == PrintSections(m.sections)
  {
    hide BigEndian, FromBigEndian, PrintSections;
    Pow256Values();
    var printed, body := PrintMessage(m), PrintSections(m.sections);
    var n := |printed|;
    BigEndianRoundTrip(20 + |body|, 8);
    SliceOfSlice(raw, offset, n, 0, 4);
    SliceOfSlice(raw, offset, n, 4, 7);
    SliceOfSlice(raw, offset, n, 7, 8);
    SliceOfSlice(raw, offset, n, 8, 16);
    SliceOfSlice(raw, offset, n, 16, n - 4);
    SliceOfSlice(raw, offset, n, n - 4, n);
    assert printed[0..4] == START && printed[4..7] == m.reserved && printed[7..8] == [2];
    assert printed[8..16] == BigEndian(20 + |body|, 8);
    assert printed[16..n - 4] == body && printed[n - 4..n] == END;
    assert raw[offset + 7] == raw[offset + 7..offset + 8][0];
  }

  lemma FirstMessage(raw: seq<Byte>, offset: nat, messages: seq<Message>)
    requires offset <= |raw| && messages != [] && raw[offset..] == Print(messages)
    ensures var n := |PrintMessage(messages[0])|;
            && offset + n <= |raw| && raw[offset..offset + n] == PrintMessage(messages[0])
            && raw[offset + n..] == Print(messages[1..])
  {
    var n, all := |PrintMessage(messages[0])|, raw[offset..];
    assert all[..n] == PrintMessage(messages[0]) && all[n..] == Print(messages[1..]);
    assert raw[offset..offset + n] == all[..n] && raw[offset + n..] == all[n..];
  }

  lemma WalkStep(raw: seq<Byte>, offset: nat, m: Message)
    requires offset < |raw| && CheckHeader(raw, offset) == None && raw[offset + 4..offset + 7] == m.reserved
    requires WalkSections(raw, offset + 16, offset + MessageLength(raw, offset) - 4) == Ok(m.sections)
    ensures Walk(raw, offset) == Prepend([m], Walk(raw, offset + MessageLength(raw, offset)))
  {
  }

  /** Printing then walking returns the messages. */
  lemma {:induction false} WalkComplete(raw: seq<Byte>, offset: nat, messages: seq<Message>)
    requires offset <= |raw| && ValidMessages(messages) && raw[offset..] == Print(messages)
    ensures Walk(raw, offset) == Ok(messages)
    decreases |messages|
  {
    hide PrintMessage, CheckHeader, WalkSections, FromBigEndian;
    if messages != [] {
      var m := messages[0];
      var n := |PrintMessage(m)|;
      FirstMessage(raw, offset, messages);
      HeaderComplete(raw, offset, m);
      SectionsComplete(raw, offset + 16, offset + n - 4, m.sections);
      WalkStep(raw, offset, m);
      WalkComplete(raw, offset + n, messages[1..]);
      assert messages == [m] + messages[1..];
    }
  }

  /** The walk accepts exactly the printed valid messages, and no buffer has two readings. */
  lemma WalkExact(raw: seq<Byte>, messages: seq<Message>)
    ensures Walk(raw, 0) == Ok(messages) <==> ValidMessages(messages) && raw == Print(messages)
  {
    assert raw[0..] == raw;
    if Walk(raw, 0) == Ok(messages) { WalkSound(raw, 0); }
    if ValidMessages(messages) && raw == Print(messages) { WalkComplete(raw, 0, messages); }
  }

  // ------------------------------------------------------------------
  // What the extractor returns
  // ------------------------------------------------------------------

  /** The coordinate vectors of all product sections that bear one, in file order. */
  function SectionVectors(sections: seq<Section>): seq<seq<Single>> {
    if sections == [] then []
    else (if BearsCoordinates(sections[0]) then [Coordinates(sections[0].body)] else []) + SectionVectors(sections[1..])
  }

  function Vectors(messages: seq<Message>): seq<seq<Single>> {
    if messages == [] then [] else SectionVectors(messages[0].sections) + Vectors(messages[1..])
  }

  predicate EvenVectors(vectors: seq<seq<Single>>) {
    forall i :: 0 <= i < |vectors| ==> |vectors[i]| % 2 == 0
  }

  predicate CandidatesMatch(candidates: seq<Grid>, vectors: seq<seq<Single>>) {
    |candidates| == |vectors| && forall i :: 0 <= i < |vectors| ==> candidates[i] == Halves(vectors[i])
  }

  lemma {:induction false} SectionVectorsMatch(sections: seq<Section>)
    requires ValidSections(sections)
    ensures CandidatesMatch(CandidatesOf(sections), SectionVectors(sections)) && EvenVectors(SectionVectors(sections))
  {
    if sections != [] {
      assert ValidSection(sections[0]);
      SectionVectorsMatch(sections[1..]);
    }
  }

  lemma {:induction false} VectorsMatch(messages: seq<Message>)
    requires ValidMessages(messages)
    ensures CandidatesMatch(Candidates(messages), Vectors(messages)) && EvenVectors(Vectors(messages))
  {
    if messages != [] {
      assert ValidMessage(messages[0]);
      SectionVectorsMatch(messages[0].sections);
      VectorsMatch(messages[1..]);
    }
  }

  lemma HalvesAgree(x: seq<Single>, y: seq<Single>)
    requires |x| % 2 == 0 && |y| % 2 == 0
    ensures SameGrid(Halves(x), Halves(y)) <==> SameValues(x, y)
  {
    var gx, gy := Halves(x), Halves(y);
    if SameGrid(gx, gy) {
      forall i | 0 <= i < |x| ensures SameValue(x[i], y[i]) {
        if i < |x| / 2 {
          assert SameValue(gx.a[i], gy.a[i]);
        } else {
          assert SameValue(gx.b[i - |x| / 2], gy.b[i - |x| / 2]);
        }
      }
    }
  }

  /** One common vector of at least four values, compared numerically. */
  predicate CommonVector(vectors: seq<seq<Single>>) {
    && vectors != [] && |vectors[0]| >= 4
    && forall i :: 0 <= i < |vectors| ==> SameValues(vectors[i], vectors[0])
  }

  lemma ChooseExact(candidates: seq<Grid>, vectors: seq<seq<Single>>)
    requires CandidatesMatch(candidates, vectors) && EvenVectors(vectors)
    ensures Choose(candidates).Ok? <==> CommonVector(vectors)
    ensures Choose(candidates).Ok? ==> Choose(candidates).value == Halves(vectors[0])
  {
    if vectors != [] {
      assert candidates[0] == Halves(vectors[0]);
      forall i | 0 <= i < |vectors|
        ensures SameGrid(candidates[i], candidates[0]) <==> SameValues(vectors[i], vectors[0])
      {
        HalvesAgree(vectors[i], vectors[0]);
      }
    }
  }

  /** raw prints valid messages with one common coordinate vector, whose halves are grid. */
  ghost predicate Yields(messages: seq<Message>, raw: seq<Byte>, grid: Grid) {
    && ValidMessages(messages) && raw == Print(messages)
    && CommonVector(Vectors(messages)) && grid == Halves(Vectors(messages)[0])
  }

  /**
   The extractor succeeds exactly on printed valid messages whose coordinate-bearing product
   sections carry one common vector of at least four values, and returns its two halves.
   */
  lemma CoefficientsExact(raw: seq<Byte>, grid: Grid)
    ensures Coefficients(raw) == Ok(grid) <==>
            exists messages :: Yields(messages, raw, grid)
  {
    if Coefficients(raw) == Ok(grid) {
      var messages := Walk(raw, 0).value;
      WalkExact(raw, messages);
      VectorsMatch(messages);
      ChooseExact(Candidates(messages), Vectors(messages));
      assert Yields(messages, raw, grid);
    }
    if exists messages :: Yields(messages, raw, grid) {
      var messages :| Yields(messages, raw, grid);
      WalkExact(raw, messages);
      VectorsMatch(messages);
      ChooseExact(Candidates(messages), Vectors(messages));
    }
  }

  // ------------------------------------------------------------------
  // The loops
  // ------------------------------------------------------------------

  lemma {:induction false} CandidatesAppend(sections: seq<Section>, s: Section)
    ensures CandidatesOf(sections + [s]) == CandidatesOf(sections) + CandidateOf(s)
  {
    hide CandidateOf;
    var all := sections + [s];
    if sections == [] {
      assert all == [s] && CandidatesOf(all[1..]) == [];
    } else {
      CandidatesAppend(sections[1..], s);
      assert all[1..] == sections[1..] + [s];
      assert CandidatesOf(all) == CandidateOf(sections[0]) + CandidatesOf(all[1..]);
    }
  }

  lemma {:induction false} MessageCandidatesAppend(messages: seq<Message>, m: Message)
    ensures Candidates(messages + [m]) == Candidates(messages) + CandidatesOf(m.sections)
  {
    hide CandidatesOf;
    var all := messages + [m];
    if messages == [] {
      assert all[1..] == [] && Candidates(all[1..]) == [];
      assert Candidates(all) == CandidatesOf(m.sections) + [];
    } else {
      var head := CandidatesOf(messages[0].sections);
      assert all[1..] == messages[1..] + [m];
      MessageCandidatesAppend(messages[1..], m);
      assert Candidates(all) == head + Candidates(all[1..]);
    }
  }

  /** Section 4: the coordinate values at its end, if it declares any. */
  method ScanProduct(raw: seq<Byte>, cursor: nat, sectionLength: nat) returns (r: Result<seq<Grid>, GribError>)
    requires 5 <= sectionLength && cursor + sectionLength <= |raw|
    ensures var s := Section(4, raw[cursor + 5..cursor + sectionLength]);
            r == match CheckSection(s) case Some(error) => Err(error) case None => Ok(CandidateOf(s))
  {
    var sectionEnd := cursor + sectionLength;
    ghost var body := raw[cursor + 5..sectionEnd];
    if sectionLength < 9 {
      return Err(TruncatedProductSection);
    }
    assert body[0..2] == raw[cursor + 5..cursor + 7];
    var coordinateCount := FromBigEndian(raw[cursor + 5..cursor + 7]);
    if coordinateCount == 0 {
      return Ok([]);
    }
    if coordinateCount % 2 != 0 {
      return Err(OddCoordinateCount);
    }
    var valuesStart := sectionEnd - coordinateCount * 4;
    if valuesStart < cursor + 9 {
      return Err(CoordinatesOverlapTemplate);
    }
    assert body[|body| - 4 * coordinateCount..] == raw[valuesStart..sectionEnd];
    var values := Singles(raw[valuesStart..sectionEnd]);
    if !AllFinite(values) {
      return Err(NonFiniteCoefficient);
    }
    var split := coordinateCount / 2;
    r := Ok([Grid(values[..split], values[split..])]);
  }

  /** Sections other than Section 4 are skipped by length alone. */
  lemma OtherSection(s: Section)
    requires s.number != 4
    ensures CheckSection(s) == None && CandidateOf(s) == []
  {
  }

  lemma SectionStep(raw: seq<Byte>, cursor: nat, limit: nat)
    requires cursor + 5 <= limit <= |raw|
    requires 5 <= FromBigEndian(raw[cursor..cursor + 4]) <= limit - cursor
    ensures var next := cursor + FromBigEndian(raw[cursor..cursor + 4]);
            var s := Section(raw[cursor + 4], raw[cursor + 5..next]);
            WalkSections(raw, cursor, limit) ==
              match CheckSection(s)
              case Some(error) => Err(error)
              case None => Prepend([s], WalkSections(raw, next, limit))
  {
  }

  /** The section loop: candidates gain one grid per coordinate-bearing product section. */
  method ScanSections(raw: seq<Byte>, start: nat, limit: nat, candidates: seq<Grid>)
    returns (r: Result<seq<Grid>, GribError>)
    requires start <= limit <= |raw|
    ensures r == match WalkSections(raw, start, limit)
                 case Err(error) => Err(error)
                 case Ok(sections) => Ok(candidates + CandidatesOf(sections))
  {
    hide CheckSection, CandidateOf, FromBigEndian;
    var found := candidates;
    var cursor := start;
    ghost var done: seq<Section> := [];
    ghost var whole := WalkSections(raw, start, limit);
    PrependNothing(whole);
    while cursor < limit
      invariant start <= cursor <= limit
      invariant whole == Prepend(done, WalkSections(raw, cursor, limit))
      invariant found == candidates + CandidatesOf(done)
    {
      if cursor + 5 > limit {
        return Err(TruncatedSectionHeader);
      }
      var sectionLength := FromBigEndian(raw[cursor..cursor + 4]);
      var sectionEnd := cursor + sectionLength;
      if sectionLength < 5 || sectionEnd > limit {
        return Err(InvalidSectionLength);
      }
      SectionStep(raw, cursor, limit);
      ghost var s := Section(raw[cursor + 4], raw[cursor + 5..sectionEnd]);
      if raw[cursor + 4] == 4 {
        var product := ScanProduct(raw, cursor, sectionLength);
        if product.Err? {
          return Err(product.error);
        }
        found := found + product.value;
      } else {
        OtherSection(s);
      }
      PrependTwice(done, s, WalkSections(raw, sectionEnd, limit));
      CandidatesAppend(done, s);
      done := done + [s];
      cursor := sectionEnd;
    }
    assert done + [] == done;
    r := Ok(found);
  }

  lemma MessageStep(raw: seq<Byte>, offset: nat)
    requires offset < |raw|
    ensures CheckHeader(raw, offset).Some? ==> Walk(raw, offset) == Err(CheckHeader(raw, offset).value)
    ensures CheckHeader(raw, offset) == None ==>
              var end := offset + MessageLength(raw, offset);
              Walk(raw, offset) ==
                match WalkSections(raw, offset + 16, end - 4)
                case Err(error) => Err(error)
                case Ok(sections) => Prepend([Message(raw[offset + 4..offset + 7], sections)], Walk(raw, end))
  {
  }

  lemma WalkEnd(raw: seq<Byte>)
    ensures Walk(raw, |raw|) == Ok([])
  {
  }

  /** The message loop around the section loop. */
  method ScanMessages(raw: seq<Byte>) returns (r: Result<seq<Grid>, GribError>)
    ensures r == match Walk(raw, 0) case Err(error) => Err(error) case Ok(messages) => Ok(Candidates(messages))
  {
    hide WalkSections, CandidatesOf, FromBigEndian, Walk;
    var candidates: seq<Grid> := [];
    var offset := 0;
    ghost var done: seq<Message> := [];
    ghost var whole := Walk(raw, 0);
    PrependNothing(whole);
    WalkEnd(raw);
    while offset < |raw|
      invariant 0 <= offset <= |raw|
      invariant whole == Prepend(done, Walk(raw, offset))
      invariant candidates == Candidates(done)
    {
      MessageStep(raw, offset);
      if offset + 16 > |raw| || raw[offset..offset + 4] != START {
        return Err(InvalidBoundary);
      }
      if raw[offset + 7] != 2 {
        return Err(WrongEdition);
      }
      var messageLength := FromBigEndian(raw[offset + 8..offset + 16]);
      var messageEnd := offset + messageLength;
      if messageLength < 20 || messageEnd > |raw| {
        return Err(TruncatedMessage);
      }
      if raw[messageEnd - 4..messageEnd] != END {
        return Err(NoEndMarker);
      }
      var scanned := ScanSections(raw, offset + 16, messageEnd - 4, candidates);
      if scanned.Err? {
        return Err(scanned.error);
      }
      candidates := scanned.value;
      ghost var m := Message(raw[offset + 4..offset + 7], WalkSections(raw, offset + 16, messageEnd - 4).value);
      PrependTwice(done, m, Walk(raw, messageEnd));
      MessageCandidatesAppend(done, m);
      done := done + [m];
      offset := messageEnd;
    }
    assert done + [] == done;
    r := Ok(candidates);
  }

  /** grib2_hybrid_coefficients: the scan, then the choice among its candidates. */
  method HybridCoefficients(raw: seq<Byte>) returns (r: Result<Grid, GribError>)
    ensures r == Coefficients(raw)
  {
    var scanned := ScanMessages(raw);
    if scanned.Err? {
      return Err(scanned.error);
    }
    var candidates := scanned.value;
    if candidates == [] {
      return Err(NoCoefficients);
    }
    var first := candidates[0];
    if exists i :: 1 <= i < |candidates| && !SameGrid(candidates[i], first) {
      return Err(InconsistentArrays);
    }
    if |first.a| < 2 || |first.a| != |first.b| {
      return Err(InvalidVerticalGrid);
    }
    r := Ok(first);
  }
}
