/**
 The coefficient vectors of a GRIB2 buffer, from the writer's side: product sections are printed
 from two arrays, and the extractor is shown to return exactly what was printed.
 */
module Grib2Vectors {
  import opened Wrappers
  import opened Bytes
  import opened Grib2
  import D = OrderedDouble

  /** A section as its writer sees it: a product with two coefficient arrays behind its template, or other bytes. */
  datatype Written =
    | Product(template: seq<Byte>, a: seq<Single>, b: seq<Single>)
    | Other(number: Byte, body: seq<Byte>)

  datatype Letter = Letter(reserved: seq<Byte>, sections: seq<Written>)

  // ------------------------------------------------------------------
  // Printing
  // ------------------------------------------------------------------

  /** Each single as four bytes, most significant first. */
  function Floats(values: seq<Single>): (bytes: seq<Byte>)
    ensures |bytes| == 4 * |values|
  {
    if values == [] then [] else BigEndian(values[0], 4) + Floats(values[1..])
  }

  /** The number of values, the template, the first array, the second array. */
  function ProductBody(template: seq<Byte>, a: seq<Single>, b: seq<Single>): seq<Byte> {
    BigEndian(|a| + |b|, 2) + template + Floats(a) + Floats(b)
  }

  function SectionOf(w: Written): Section {
    match w
    case Product(template, a, b) => Section(4, ProductBody(template, a, b))
    case Other(number, body) => Section(number, body)
  }

  function SectionsOf(ws: seq<Written>): (sections: seq<Section>)
    ensures |sections| == |ws| && forall i :: 0 <= i < |ws| ==> sections[i] == SectionOf(ws[i])
  {
    if ws == [] then [] else [SectionOf(ws[0])] + SectionsOf(ws[1..])
  }

  function MessagesOf(letters: seq<Letter>): (messages: seq<Message>)
    ensures |messages| == |letters|
    ensures forall i :: 0 <= i < |letters| ==>
              messages[i] == Message(letters[i].reserved, SectionsOf(letters[i].sections))
  {
    if letters == [] then []
    else [Message(letters[0].reserved, SectionsOf(letters[0].sections))] + MessagesOf(letters[1..])
  }

  /** A finite single: below the infinities, whatever its sign. */
  predicate IsFiniteSingle(v: Single) {
    v < U32_LIMIT && v % 0x8000_0000 < 0x7F80_0000
  }

  /** A product has two finite arrays of one length behind a template of at least its number, in a section that fits. */
  predicate WellWritten(w: Written) {
    && 5 + |SectionOf(w).body| < U32_LIMIT
    && match w
       case Product(template, a, b) =>
         && |template| >= 2 && |a| == |b| && |a| + |b| < U16_LIMIT
         && (forall v :: v in a ==> IsFiniteSingle(v)) && (forall v :: v in b ==> IsFiniteSingle(v))
       case Other(number, _) => number != 4
  }

  predicate WellLettered(l: Letter) {
    && |l.reserved| == 3 && (forall i :: 0 <= i < |l.sections| ==> WellWritten(l.sections[i]))
    && 20 + |PrintSections(SectionsOf(l.sections))| < U64_LIMIT
  }

  predicate AllLettered(letters: seq<Letter>) {
    forall i :: 0 <= i < |letters| ==> WellLettered(letters[i])
  }

  /** The pairs of nonempty arrays, in file order. */
  function PairsIn(ws: seq<Written>): seq<Grid> {
    if ws == [] then []
    else (if ws[0].Product? && ws[0].a != [] then [Grid(ws[0].a, ws[0].b)] else []) + PairsIn(ws[1..])
  }

  function Pairs(letters: seq<Letter>): seq<Grid> {
    if letters == [] then [] else PairsIn(letters[0].sections) + Pairs(letters[1..])
  }

  /** The texts that open and close a message. */
  lemma Markers()
    ensures |START| == |END| == 4
    ensures forall i :: 0 <= i < 4 ==> START[i] == "GRIB"[i] as int && END[i] == "7777"[i] as int
  {
  }

  // ------------------------------------------------------------------
  // Singles
  // ------------------------------------------------------------------

  /** Exponent 255 is exactly the infinities and what lies above them. */
  lemma FiniteExact(v: Single)
    requires v < U32_LIMIT
    ensures Finite(v) <==> IsFiniteSingle(v)
  {
    var e, f := v / 0x80_0000, v % 0x80_0000;
    assert v == 0x80_0000 * e + f && e < 512;
    if e < 256 {
      assert v < 0x8000_0000;
    } else {
      assert v % 0x8000_0000 == v - 0x8000_0000;
    }
  }

  const HIDDEN_BIT := 0x80_0000

  /** The value of a single without its sign, in units of 2^-149. */
  function SingleMagnitude(rank: nat): (m: int)
    ensures m >= 0
  {
    var exponent, fraction := rank / HIDDEN_BIT, rank % HIDDEN_BIT;
    if exponent == 0 then fraction else (HIDDEN_BIT + fraction) * D.Pow2(exponent - 1)
  }

  function SingleValue(v: Single): int {
    if v < 0x8000_0000 then SingleMagnitude(v) else -SingleMagnitude(v - 0x8000_0000)
  }

  /** Consecutive exponents do not overlap. */
  lemma SingleBounds(rank: nat)
    ensures var e := rank / HIDDEN_BIT;
            if e == 0 then SingleMagnitude(rank) < HIDDEN_BIT
            else HIDDEN_BIT * D.Pow2(e - 1) <= SingleMagnitude(rank) < HIDDEN_BIT * D.Pow2(e)
  {
    var e, f := rank / HIDDEN_BIT, rank % HIDDEN_BIT;
    if e > 0 {
      assert (HIDDEN_BIT + f) * D.Pow2(e - 1) == HIDDEN_BIT * D.Pow2(e - 1) + f * D.Pow2(e - 1);
      D.ScaledLess(HIDDEN_BIT + f, 2 * HIDDEN_BIT, D.Pow2(e - 1));
      assert 2 * HIDDEN_BIT * D.Pow2(e - 1) == HIDDEN_BIT * D.Pow2(e);
    }
  }

  lemma SingleMonotone(a: nat, b: nat)
    requires a < b
    ensures SingleMagnitude(a) < SingleMagnitude(b)
  {
    var ea, eb := a / HIDDEN_BIT, b / HIDDEN_BIT;
    if ea == eb {
      if ea > 0 { D.ScaledLess(HIDDEN_BIT + a % HIDDEN_BIT, HIDDEN_BIT + b % HIDDEN_BIT, D.Pow2(ea - 1)); }
    } else {
      SingleBounds(a);
      SingleBounds(b);
      D.Pow2Monotone(ea, eb - 1);
      D.ScaledLeast(HIDDEN_BIT, D.Pow2(ea), D.Pow2(eb - 1));
    }
  }

  lemma MagnitudesDiffer(p: nat, q: nat)
    ensures SingleMagnitude(p) == SingleMagnitude(q) <==> p == q
    ensures SingleMagnitude(p) == 0 <==> p == 0
  {
    assert SingleMagnitude(0) == 0;
    hide SingleMagnitude;
    if p > 0 { SingleMonotone(0, p); }
    if p < q { SingleMonotone(p, q); }
    if q < p { SingleMonotone(q, p); }
  }

  /** Two singles agree exactly when their values are equal: as bits, or as the two zeros. */
  lemma SameValueExact(x: Single, y: Single)
    requires x < U32_LIMIT && y < U32_LIMIT
    ensures SameValue(x, y) <==> SingleValue(x) == SingleValue(y)
  {
    var p, q := if x < 0x8000_0000 then x else x - 0x8000_0000, if y < 0x8000_0000 then y else y - 0x8000_0000;
    assert x % 0x8000_0000 == p && y % 0x8000_0000 == q;
    hide SingleMagnitude;
    MagnitudesDiffer(p, q);
    MagnitudesDiffer(q, p);
  }

  lemma {:induction false} FloatsAppend(a: seq<Single>, b: seq<Single>)
    ensures Floats(a + b) == Floats(a) + Floats(b)
  {
    if a == [] {
      assert a + b == b;
    } else {
      FloatsAppend(a[1..], b);
      assert (a + b)[1..] == a[1..] + b;
    }
  }

  lemma {:induction false} FloatAt(values: seq<Single>, i: nat)
    requires i < |values|
    ensures Floats(values)[4 * i..4 * i + 4] == BigEndian(values[i], 4)
  {
    hide BigEndian;
    if i > 0 {
      FloatAt(values[1..], i - 1);
      Behind(BigEndian(values[0], 4), Floats(values[1..]), 4 * (i - 1));
    }
  }

  lemma Behind(front: seq<Byte>, rest: seq<Byte>, at: nat)
    requires at + 4 <= |rest|
    ensures (front + rest)[|front| + at..|front| + at + 4] == rest[at..at + 4]
  {
  }

  /** Reading printed singles returns them. */
  lemma SinglesRead(values: seq<Single>)
    requires forall v :: v in values ==> v < U32_LIMIT
    ensures Singles(Floats(values)) == values
  {
    Pow256Values();
    forall i | 0 <= i < |values| ensures Singles(Floats(values))[i] == values[i] {
      FloatAt(values, i);
      assert values[i] in values;
      BigEndianRoundTrip(values[i], 4);
    }
  }

  /** Printing read singles returns their bytes. */
  lemma {:induction false} SinglesWrite(bytes: seq<Byte>)
    requires |bytes| % 4 == 0
    ensures Floats(Singles(bytes)) == bytes
    ensures forall v :: v in Singles(bytes) ==> v < U32_LIMIT
    decreases |bytes|
  {
    Pow256Values();
    var values := Singles(bytes);
    if bytes != [] {
      var rest := bytes[4..];
      SinglesWrite(rest);
      FromBigEndianRoundTrip(bytes[0..4]);
      assert values[0] == FromBigEndian(bytes[0..4]);
      forall i | 0 <= i < |Singles(rest)| ensures values[1..][i] == Singles(rest)[i] {
        assert rest[4 * i..4 * i + 4] == bytes[4 * (i + 1)..4 * (i + 1) + 4];
      }
      assert values[1..] == Singles(rest) && values == [values[0]] + values[1..];
      assert bytes == bytes[0..4] + rest;
    }
  }

  // ------------------------------------------------------------------
  // One section
  // ------------------------------------------------------------------

  lemma BodyParts(template: seq<Byte>, a: seq<Single>, b: seq<Single>)
    ensures var body := ProductBody(template, a, b);
            && body[0..2] == BigEndian(|a| + |b|, 2)
            && |body| == 2 + |template| + 4 * (|a| + |b|)
            && body[|body| - 4 * (|a| + |b|)..] == Floats(a + b)
  {
    PartsPrint(template, a, b);
    hide *;
    SplitParts(BigEndian(|a| + |b|, 2), template, Floats(a + b));
  }

  lemma SplitParts(count: seq<Byte>, template: seq<Byte>, tail: seq<Byte>)
    requires |count| == 2
    ensures var body := count + template + tail;
            body[0..2] == count && |body| == 2 + |template| + |tail| && body[|body| - |tail|..] == tail
  {
  }

  lemma CountReads(template: seq<Byte>, a: seq<Single>, b: seq<Single>)
    requires |template| >= 2 && |a| + |b| < U16_LIMIT
    ensures CoordinateCount(ProductBody(template, a, b)) == |a| + |b|
  {
    Pow256Values();
    BodyParts(template, a, b);
    hide ProductBody, BigEndian, FromBigEndian;
    BigEndianRoundTrip(|a| + |b|, 2);
  }

  lemma CoordinatesRead(template: seq<Byte>, a: seq<Single>, b: seq<Single>)
    requires |template| >= 2 && |a| + |b| < U16_LIMIT
    requires (forall v :: v in a ==> IsFiniteSingle(v)) && (forall v :: v in b ==> IsFiniteSingle(v))
    ensures var body := ProductBody(template, a, b);
            && CoordinateCount(body) == |a| + |b| && |body| == 2 + |template| + 4 * (|a| + |b|)
            && Coordinates(body) == a + b && AllFinite(a + b)
  {
    CountReads(template, a, b);
    BodyParts(template, a, b);
    hide ProductBody, CoordinateCount, Singles, Floats, Finite;
    forall v | v in a + b ensures IsFiniteSingle(v) { assert v in a || v in b; }
    SinglesRead(a + b);
    forall i | 0 <= i < |a + b| ensures Finite((a + b)[i]) {
      assert (a + b)[i] in a + b;
      FiniteExact((a + b)[i]);
    }
  }

  lemma HalvesOfSum(a: seq<Single>, b: seq<Single>)
    requires |a| == |b|
    ensures Halves(a + b) == Grid(a, b)
  {
    assert (a + b)[..|a|] == a && (a + b)[|a|..] == b;
  }

  /** A written section is valid, and its candidate is the pair that was written. */
  lemma WrittenReads(w: Written)
    requires WellWritten(w)
    ensures ValidSection(SectionOf(w))
    ensures CandidateOf(SectionOf(w)) == if w.Product? && w.a != [] then [Grid(w.a, w.b)] else []
  {
    if w.Product? {
      ProductReads(w.template, w.a, w.b);
    }
  }

  lemma ProductReads(template: seq<Byte>, a: seq<Single>, b: seq<Single>)
    requires WellWritten(Product(template, a, b))
    ensures var s := Section(4, ProductBody(template, a, b));
            CheckSection(s) == None && CandidateOf(s) == if a != [] then [Grid(a, b)] else []
  {
    CoordinatesRead(template, a, b);
    HalvesOfSum(a, b);
    hide ProductBody, CoordinateCount, Coordinates, AllFinite, IsFiniteSingle, Halves;
  }

  lemma BodyIsPrinted(body: seq<Byte>, count: nat, at: nat)
    requires |body| >= 4 && count == CoordinateCount(body) && count % 2 == 0
    requires at == |body| - 4 * count && at >= 4
    ensures var values := Singles(body[at..]);
            && |values| == count && (forall v :: v in values ==> v < U32_LIMIT)
            && body == ProductBody(body[2..at], values[..count / 2], values[count / 2..])
  {
    var values := Singles(body[at..]);
    var a, b := values[..count / 2], values[count / 2..];
    SinglesWrite(body[at..]);
    CountWrites(body);
    hide *;
    assert a + b == values;
    ThreeParts(body, at);
    PartsPrint(body[2..at], a, b);
  }

  lemma ThreeParts(body: seq<Byte>, at: nat)
    requires 2 <= at <= |body|
    ensures body == body[0..2] + body[2..at] + body[at..]
  {
  }

  lemma PartsPrint(template: seq<Byte>, a: seq<Single>, b: seq<Single>)
    ensures ProductBody(template, a, b) == BigEndian(|a| + |b|, 2) + template + Floats(a + b)
  {
    FloatsAppend(a, b);
    hide Floats, BigEndian;
  }

  lemma CountWrites(body: seq<Byte>)
    requires |body| >= 4
    ensures body[0..2] == BigEndian(CoordinateCount(body), 2) && CoordinateCount(body) < U16_LIMIT
  {
    Pow256Values();
    FromBigEndianRoundTrip(body[0..2]);
  }

  /** Every valid section is written in one of the two ways. */
  lemma SectionIsWritten(s: Section) returns (w: Written)
    requires ValidSection(s)
    ensures WellWritten(w) && SectionOf(w) == s
  {
    if s.number != 4 {
      w := Other(s.number, s.body);
    } else {
      var body, count := s.body, CoordinateCount(s.body);
      var at := |body| - 4 * count;
      var values := Singles(body[at..]);
      BodyIsPrinted(body, count, at);
      HalvesFinite(s, values);
      CountWrites(body);
      hide Singles, CoordinateCount, ProductBody, CheckSection, IsFiniteSingle;
      w := Product(body[2..at], values[..count / 2], values[count / 2..]);
    }
  }

  lemma HalvesFinite(s: Section, values: seq<Single>)
    requires s.number == 4 && ValidSection(s)
    requires values == Singles(s.body[|s.body| - 4 * CoordinateCount(s.body)..])
    requires forall v :: v in values ==> v < U32_LIMIT
    ensures forall v :: v in values ==> IsFiniteSingle(v)
  {
    forall v | v in values ensures IsFiniteSingle(v) {
      var i :| 0 <= i < |values| && values[i] == v;
      if CoordinateCount(s.body) > 0 {
        assert Finite(Coordinates(s.body)[i]);
        FiniteExact(v);
      }
    }
  }

  // ------------------------------------------------------------------
  // Lists
  // ------------------------------------------------------------------

  lemma {:induction false} SectionsRead(ws: seq<Written>)
    requires forall i :: 0 <= i < |ws| ==> WellWritten(ws[i])
    ensures ValidSections(SectionsOf(ws)) && CandidatesOf(SectionsOf(ws)) == PairsIn(ws)
  {
    if ws != [] {
      WrittenReads(ws[0]);
      SectionsRead(ws[1..]);
      hide WellWritten, ValidSection, CandidateOf, SectionOf;
      assert SectionsOf(ws)[1..] == SectionsOf(ws[1..]);
    }
  }

  lemma {:induction false} LettersRead(letters: seq<Letter>)
    requires AllLettered(letters)
    ensures ValidMessages(MessagesOf(letters)) && Candidates(MessagesOf(letters)) == Pairs(letters)
  {
    if letters != [] {
      assert WellLettered(letters[0]);
      SectionsRead(letters[0].sections);
      LettersRead(letters[1..]);
      hide ValidSections, CandidatesOf, PairsIn, SectionsOf, PrintSections;
      assert MessagesOf(letters)[1..] == MessagesOf(letters[1..]);
    }
  }

  lemma {:induction false} SectionsAreWritten(sections: seq<Section>) returns (ws: seq<Written>)
    requires ValidSections(sections)
    ensures SectionsOf(ws) == sections && forall i :: 0 <= i < |ws| ==> WellWritten(ws[i])
  {
    if sections == [] {
      ws := [];
    } else {
      assert ValidSection(sections[0]);
      var w := SectionIsWritten(sections[0]);
      var rest := SectionsAreWritten(sections[1..]);
      hide WellWritten, SectionOf;
      ws := [w] + rest;
      assert ws[1..] == rest && sections == [sections[0]] + sections[1..];
    }
  }

  lemma {:induction false} MessagesAreLetters(messages: seq<Message>) returns (letters: seq<Letter>)
    requires ValidMessages(messages)
    ensures MessagesOf(letters) == messages && AllLettered(letters)
  {
    if messages == [] {
      letters := [];
    } else {
      assert ValidMessage(messages[0]);
      var ws := SectionsAreWritten(messages[0].sections);
      var rest := MessagesAreLetters(messages[1..]);
      hide WellWritten, SectionsOf, PrintSections;
      letters := [Letter(messages[0].reserved, ws)] + rest;
      assert letters[1..] == rest && messages == [messages[0]] + messages[1..];
    }
  }

  // ------------------------------------------------------------------
  // The extractor returns what was written
  // ------------------------------------------------------------------

  /** All pairs agree with the first as numbers, and it has at least two values on each side. */
  ghost predicate Agree(pairs: seq<Grid>, grid: Grid) {
    && pairs != [] && grid == pairs[0] && |grid.a| >= 2 && |grid.a| == |grid.b|
    && forall i :: 0 <= i < |pairs| ==> SameGrid(pairs[i], grid)
  }

  ghost predicate Prints(letters: seq<Letter>, raw: seq<Byte>, grid: Grid) {
    AllLettered(letters) && raw == Print(MessagesOf(letters)) && Agree(Pairs(letters), grid)
  }

  lemma ChoiceAgrees(pairs: seq<Grid>, grid: Grid)
    ensures Choose(pairs) == Ok(grid) <==> Agree(pairs, grid)
  {
    if Choose(pairs) == Ok(grid) {
      assert SameGrid(pairs[0], pairs[0]);
    }
  }

  /**
   The extractor returns (a, b) exactly on printed messages whose product sections with coefficients
   all carry, as numbers, one pair of arrays of one length of at least two, the first of them (a, b).
   */
  lemma ExtractionExact(raw: seq<Byte>, grid: Grid)
    ensures Coefficients(raw) == Ok(grid) <==> exists letters :: Prints(letters, raw, grid)
  {
    hide Walk, Choose, Candidates, Print, ValidMessages, AllLettered, MessagesOf, Pairs, Agree;
    if Coefficients(raw) == Ok(grid) {
      var messages := Walk(raw, 0).value;
      WalkExact(raw, messages);
      var letters := MessagesAreLetters(messages);
      LettersRead(letters);
      ChoiceAgrees(Pairs(letters), grid);
      assert Prints(letters, raw, grid);
    }
    if letters :| Prints(letters, raw, grid) {
      LettersRead(letters);
      WalkExact(raw, MessagesOf(letters));
      ChoiceAgrees(Pairs(letters), grid);
    }
  }

  /** The plain case: every product section with coefficients carries the same pair. */
  lemma CommonPairIsReturned(letters: seq<Letter>, grid: Grid)
    requires AllLettered(letters) && Pairs(letters) != [] && forall g :: g in Pairs(letters) ==> g == grid
    requires |grid.a| == |grid.b| >= 2
    ensures Coefficients(Print(MessagesOf(letters))) == Ok(grid)
  {
    var pairs := Pairs(letters);
    forall i | 0 <= i < |pairs| ensures SameGrid(pairs[i], grid) && pairs[i] == grid { assert pairs[i] in pairs; }
    assert Prints(letters, Print(MessagesOf(letters)), grid);
    ExtractionExact(Print(MessagesOf(letters)), grid);
  }
}
