/**
 The TGRID tiled raster: the writer that pads, compresses and indexes 256 by 256 tiles. The zlib
 codec is a parameter, and so is what real number an eight-byte encoding of a double stands for.
 */
module TileGrid {
  import opened Wrappers
  import opened Bytes

  type Sample = v: int | -0x8000 <= v < 0x8000

  const HEADER_BYTES := 128
  const INDEX_ENTRY_BYTES := 16
  const TILE_WIDTH := 256
  const TILE_HEIGHT := 256
  const TILE_SAMPLES := TILE_WIDTH * TILE_HEIGHT
  const RAW_BYTES := TILE_SAMPLES * 2
  const NODATA: Sample := -0x8000
  const FORMAT_VERSION := 1
  const COMPRESSION_ZLIB: Byte := 1

  /** The format's magic, "TRAJECTA-TGRID1" and a zero byte. */
  const MAGIC: seq<Byte> := [84, 82, 65, 74, 69, 67, 84, 65, 45, 84, 71, 82, 73, 68, 49, 0]

  /** The numbers of the format, and the text of its magic. */
  lemma FormatConstants()
    ensures HEADER_BYTES == 128 && INDEX_ENTRY_BYTES == 8 + 4 + 4 && TILE_WIDTH == TILE_HEIGHT == 256
    ensures NODATA == -32768 && RAW_BYTES == 2 * 256 * 256 && FORMAT_VERSION == 1
    ensures |MAGIC| == 16 && MAGIC[15] == 0
    ensures forall i :: 0 <= i < 15 ==> MAGIC[i] == "TRAJECTA-TGRID1"[i] as int
  {
  }

  type Compressor = seq<Byte> -> seq<Byte>

  /** The dataset as rasterio shows it: rows of samples, geometry, and the field being prepared. */
  datatype Raster = Raster(width: nat, height: nat, rows: seq<seq<Sample>>, fieldId: Byte, transform: seq<seq<Byte>>)

  predicate WellFormed(g: Raster) {
    && g.width >= 1 && g.height >= 1
    && |g.rows| == g.height && (forall r :: 0 <= r < g.height ==> |g.rows[r]| == g.width)
    && |g.transform| == 4 && (forall i :: 0 <= i < 4 ==> |g.transform[i]| == 8)
    && (g.fieldId == 1 || g.fieldId == 2)
  }

  datatype WriteError = InvalidSource | StructError

  datatype Entry = Entry(offset: nat, compressed: nat, raw: nat)

  // ------------------------------------------------------------------
  // The transform
  // ------------------------------------------------------------------

  /** A double: a real number, an infinity, or not a number. */
  datatype Float = Finite(value: real) | Infinity(negative: bool) | NotANumber

  type FloatReader = seq<Byte> -> Float

  predicate AtMostZero(x: Float) {
    match x case Finite(v) => v <= 0.0 case Infinity(negative) => negative case NotANumber => false
  }

  predicate AtLeastZero(x: Float) {
    match x case Finite(v) => v >= 0.0 case Infinity(negative) => !negative case NotANumber => false
  }

  function Abs(x: real): real {
    if x < 0.0 then -x else x
  }

  const CIRCLE := 360.0
  const SPAN_SLACK := 0.000005

  /** The raster's columns do not span the circle; comparisons with not-a-number are false. */
  predicate OffCircle(spacing: Float, width: nat) {
    match spacing
    case Finite(v) => Abs(v * width as real - CIRCLE) > SPAN_SLACK
    case Infinity(_) => true
    case NotANumber => false
  }

  /** validate_source on the transform: origin longitude and latitude, then the two spacings. */
  predicate SourceTransform(g: Raster, float: FloatReader)
    requires WellFormed(g)
  {
    var spacing := float(g.transform[2]);
    !AtMostZero(spacing) && !AtLeastZero(float(g.transform[3])) && !OffCircle(spacing, g.width)
  }

  // ------------------------------------------------------------------
  // Specification of the file
  // ------------------------------------------------------------------

  function TileColumns(width: nat): (n: nat)
    ensures n >= 1 <==> width >= 1
  {
    (width + TILE_WIDTH - 1) / TILE_WIDTH
  }

  function TileRows(height: nat): (n: nat)
    ensures n >= 1 <==> height >= 1
  {
    (height + TILE_HEIGHT - 1) / TILE_HEIGHT
  }

  function TileCount(g: Raster): nat {
    TileRows(g.height) * TileColumns(g.width)
  }

  function DataOffset(g: Raster): nat {
    HEADER_BYTES + TileCount(g) * INDEX_ENTRY_BYTES
  }

  function Min(a: int, b: int): int {
    if a < b then a else b
  }

  /** Cell (row, column) of a padded tile: the window's value, or nodata outside the window. */
  function Cell(g: Raster, tileRow: nat, tileColumn: nat, row: nat, column: nat): Sample
    requires WellFormed(g)
  {
    var rowOffset, columnOffset := tileRow * TILE_HEIGHT, tileColumn * TILE_WIDTH;
    if row < Min(TILE_HEIGHT, g.height - rowOffset) && column < Min(TILE_WIDTH, g.width - columnOffset)
    then g.rows[rowOffset + row][columnOffset + column]
    else NODATA
  }

  /** A sample as an unsigned 16-bit word. */
  function Word(v: Sample): (w: nat)
    ensures w < U16_LIMIT
  {
    if v < 0 then v + U16_LIMIT else v
  }

  function SignedWord(w: nat): Sample
    requires w < U16_LIMIT
  {
    if w < 0x8000 then w else w - U16_LIMIT
  }

  /** Byte 0 or 1 of a sample, the low one first. */
  function ByteOf(v: Sample, half: nat): Byte {
    if half == 0 then Word(v) % 256 else Word(v) / 256
  }

  /** Row-major little-endian bytes of tile k, counting tiles row by row. */
  function TileBytes(g: Raster, k: nat): (raw: seq<Byte>)
    requires WellFormed(g)
    ensures |raw| == RAW_BYTES
  {
    var columns := TileColumns(g.width);
    seq(RAW_BYTES, i requires 0 <= i < RAW_BYTES =>
      ByteOf(Cell(g, k / columns, k % columns, i / 2 / TILE_WIDTH, i / 2 % TILE_WIDTH), i % 2))
  }

  /** The entry fits its fields of eight, four and four bytes. */
  predicate Packs(e: Entry) {
    e.offset < U64_LIMIT && e.compressed < U32_LIMIT && e.raw < U32_LIMIT
  }

  function EntryBytes(e: Entry): (s: seq<Byte>)
    ensures |s| == INDEX_ENTRY_BYTES
  {
    LittleEndian(e.offset, 8) + LittleEndian(e.compressed, 4) + LittleEndian(e.raw, 4)
  }

  /** Compressed tiles laid end to end. */
  function Payload(tiles: seq<seq<Byte>>): seq<Byte> {
    if tiles == [] then [] else Payload(tiles[..|tiles| - 1]) + tiles[|tiles| - 1]
  }

  /** Where each compressed tile goes when the payload starts at dataOffset. */
  function Index(dataOffset: nat, tiles: seq<seq<Byte>>): (index: seq<Entry>)
    ensures |index| == |tiles|
  {
    if tiles == [] then []
    else
      var before, last := tiles[..|tiles| - 1], tiles[|tiles| - 1];
      Index(dataOffset, before) + [Entry(dataOffset + |Payload(before)|, |last|, RAW_BYTES)]
  }

  function IndexBytes(index: seq<Entry>): (s: seq<Byte>)
    ensures |s| == |index| * INDEX_ENTRY_BYTES
  {
    if index == [] then [] else IndexBytes(index[..|index| - 1]) + EntryBytes(index[|index| - 1])
  }

  /** The compressed tiles of a raster, counted row by row. */
  ghost function TileList(g: Raster, compress: Compressor): (tiles: seq<seq<Byte>>)
    requires WellFormed(g)
    ensures |tiles| == TileCount(g) && AreTiles(g, compress, tiles, TileCount(g))
  {
    seq(TileCount(g), k requires 0 <= k < TileCount(g) => compress(TileBytes(g, k)))
  }

  /** The first n compressed tiles of a raster. */
  ghost predicate AreTiles(g: Raster, compress: Compressor, tiles: seq<seq<Byte>>, n: nat)
    requires WellFormed(g)
  {
    |tiles| == n && forall k :: 0 <= k < n ==> tiles[k] == compress(TileBytes(g, k))
  }

  /** A field of the header. */
  predicate Holds(h: seq<Byte>, offset: nat, field: seq<Byte>) {
    offset + |field| <= |h| && h[offset..offset + |field|] == field
  }

  predicate IdentityHeader(h: seq<Byte>) {
    && Holds(h, 0, MAGIC)
    && Holds(h, 16, LittleEndian(FORMAT_VERSION, 4))
    && Holds(h, 20, LittleEndian(HEADER_BYTES, 4))
  }

  predicate SizeHeader(g: Raster, h: seq<Byte>) {
    && Holds(h, 24, LittleEndian(g.width, 4))
    && Holds(h, 28, LittleEndian(g.height, 4))
    && Holds(h, 32, LittleEndian(TILE_WIDTH, 4))
    && Holds(h, 36, LittleEndian(TILE_HEIGHT, 4))
  }

  predicate EncodingHeader(g: Raster, h: seq<Byte>) {
    && Holds(h, 40, LittleEndian(Word(NODATA), 2))
    && Holds(h, 42, [g.fieldId])
    && Holds(h, 43, [COMPRESSION_ZLIB])
    && Holds(h, 44, [0, 0, 0, 0])
  }

  predicate TransformHeader(g: Raster, h: seq<Byte>)
    requires WellFormed(g)
  {
    && Holds(h, 48, g.transform[0])
    && Holds(h, 56, g.transform[1])
    && Holds(h, 64, g.transform[2])
    && Holds(h, 72, g.transform[3])
  }

  predicate LayoutHeader(g: Raster, h: seq<Byte>) {
    && Holds(h, 80, LittleEndian(TileColumns(g.width), 4))
    && Holds(h, 84, LittleEndian(TileRows(g.height), 4))
    && Holds(h, 88, LittleEndian(TileCount(g), 8))
    && Holds(h, 96, LittleEndian(HEADER_BYTES, 8))
    && Holds(h, 104, LittleEndian(DataOffset(g), 8))
  }

  /** What each field of the 128-byte header holds. */
  ghost predicate IsHeader(g: Raster, h: seq<Byte>) {
    && |h| == HEADER_BYTES && WellFormed(g)
    && IdentityHeader(h) && SizeHeader(g, h) && EncodingHeader(g, h)
    && TransformHeader(g, h) && LayoutHeader(g, h)
    && (forall i :: 112 <= i < HEADER_BYTES ==> h[i] == 0)
  }

  /** The file is a header, then the index, then the payload, every field within its struct format. */
  ghost predicate IsGridFile(g: Raster, tiles: seq<seq<Byte>>, file: seq<Byte>) {
    && g.width < U32_LIMIT && g.height < U32_LIMIT
    && (forall k :: 0 <= k < |tiles| ==> Packs(Index(DataOffset(g), tiles)[k]))
    && exists h :: IsHeader(g, h) && file == h + IndexBytes(Index(DataOffset(g), tiles)) + Payload(tiles)
  }

  // ------------------------------------------------------------------
  // The writer
  // ------------------------------------------------------------------

  /** Every field of before that lies outside [lo, hi) is a field of after. */
  ghost predicate KeepsOutside(before: seq<Byte>, after: seq<Byte>, lo: nat, hi: nat) {
    |before| == |after| && forall i :: 0 <= i < |before| && !(lo <= i < hi) ==> before[i] == after[i]
  }

  /** The first lo bytes are the same. */
  ghost predicate KeepsFrom(before: seq<Byte>, after: seq<Byte>, lo: nat) {
    |before| == |after| && forall i :: 0 <= i < |before| && i < lo ==> before[i] == after[i]
  }

  /** struct.pack_into at an offset of the header. */
  method PackInto(header: array<Byte>, offset: nat, field: seq<Byte>)
    requires offset + |field| <= header.Length
    modifies header
    ensures Holds(header[..], offset, field)
    ensures KeepsOutside(old(header[..]), header[..], offset, offset + |field|)
  {
    forall i | 0 <= i < |field| {
      header[offset + i] := field[i];
    }
  }

  method PackIdentity(header: array<Byte>)
    requires header.Length == HEADER_BYTES
    modifies header
    ensures IdentityHeader(header[..])
    ensures KeepsOutside(old(header[..]), header[..], 0, 24)
  {
    PackInto(header, 0, MAGIC);
    PackInto(header, 16, LittleEndian(FORMAT_VERSION, 4));
    PackInto(header, 20, LittleEndian(HEADER_BYTES, 4));
  }

  method PackSize(header: array<Byte>, g: Raster)
    requires header.Length == HEADER_BYTES
    modifies header
    ensures SizeHeader(g, header[..])
    ensures KeepsOutside(old(header[..]), header[..], 24, 40)
  {
    PackInto(header, 24, LittleEndian(g.width, 4));
    PackInto(header, 28, LittleEndian(g.height, 4));
    PackInto(header, 32, LittleEndian(TILE_WIDTH, 4));
    PackInto(header, 36, LittleEndian(TILE_HEIGHT, 4));
  }

  method PackEncoding(header: array<Byte>, g: Raster)
    requires header.Length == HEADER_BYTES && header[44..48] == [0, 0, 0, 0]
    modifies header
    ensures EncodingHeader(g, header[..])
    ensures KeepsOutside(old(header[..]), header[..], 40, 48)
  {
    assert Holds(header[..], 44, [0, 0, 0, 0]);
    PackInto(header, 40, LittleEndian(Word(NODATA), 2));
    PackInto(header, 42, [g.fieldId]);
    PackInto(header, 43, [COMPRESSION_ZLIB]);
  }

  method PackTransform(header: array<Byte>, g: Raster)
    requires header.Length == HEADER_BYTES && WellFormed(g)
    modifies header
    ensures TransformHeader(g, header[..])
    ensures KeepsOutside(old(header[..]), header[..], 48, 80)
  {
    PackInto(header, 48, g.transform[0]);
    PackInto(header, 56, g.transform[1]);
    PackInto(header, 64, g.transform[2]);
    PackInto(header, 72, g.transform[3]);
  }

  method PackLayout(header: array<Byte>, g: Raster)
    requires header.Length == HEADER_BYTES
    modifies header
    ensures LayoutHeader(g, header[..])
    ensures KeepsOutside(old(header[..]), header[..], 80, 112)
  {
    PackInto(header, 80, LittleEndian(TileColumns(g.width), 4));
    PackInto(header, 84, LittleEndian(TileRows(g.height), 4));
    PackInto(header, 88, LittleEndian(TileCount(g), 8));
    PackInto(header, 96, LittleEndian(HEADER_BYTES, 8));
    PackInto(header, 104, LittleEndian(DataOffset(g), 8));
  }

  method BuildHeader(g: Raster) returns (header: array<Byte>)
    requires WellFormed(g)
    ensures fresh(header) && IsHeader(g, header[..])
  {
    hide LittleEndian, TileColumns, TileRows, TileCount, DataOffset, Word, WellFormed;
    header := new Byte[HEADER_BYTES](_ => 0);
    hide IdentityHeader, SizeHeader, EncodingHeader, TransformHeader, LayoutHeader, Holds;
    PackIdentity(header);
    ghost var named := header[..];
    PackSize(header, g);
    IdentityKept(named, header[..], 24);
    ghost var sized := header[..];
    PackEncoding(header, g);
    StartKept(g, sized, header[..], 40);
    ghost var encoded := header[..];
    PackTransform(header, g);
    StartKept(g, encoded, header[..], 48);
    EncodingKept(g, encoded, header[..], 48);
    ghost var placed := header[..];
    PackLayout(header, g);
    StartKept(g, placed, header[..], 80);
    EncodingKept(g, placed, header[..], 80);
    TransformKept(g, placed, header[..]);
  }

  lemma IdentityKept(before: seq<Byte>, after: seq<Byte>, lo: nat)
    requires lo >= 24 && KeepsFrom(before, after, lo) && IdentityHeader(before)
    ensures IdentityHeader(after)
  {
    hide LittleEndian;
  }

  lemma StartKept(g: Raster, before: seq<Byte>, after: seq<Byte>, lo: nat)
    requires lo >= 40 && KeepsFrom(before, after, lo) && IdentityHeader(before) && SizeHeader(g, before)
    ensures IdentityHeader(after) && SizeHeader(g, after)
  {
    hide LittleEndian;
  }

  lemma EncodingKept(g: Raster, before: seq<Byte>, after: seq<Byte>, lo: nat)
    requires lo >= 48 && KeepsFrom(before, after, lo) && EncodingHeader(g, before)
    ensures EncodingHeader(g, after)
  {
    hide LittleEndian;
  }

  lemma TransformKept(g: Raster, before: seq<Byte>, after: seq<Byte>)
    requires WellFormed(g) && KeepsFrom(before, after, 80) && TransformHeader(g, before)
    ensures TransformHeader(g, after)
  {
  }

  /** One padded tile, serialised. */
  method PaddedTile(g: Raster, tileRow: nat, tileColumn: nat) returns (raw: seq<Byte>)
    requires WellFormed(g) && tileRow < TileRows(g.height) && tileColumn < TileColumns(g.width)
    ensures raw == TileBytes(g, tileRow * TileColumns(g.width) + tileColumn)
  {
    var values := PaddedValues(g, tileRow, tileColumn);
    Slot(tileRow, tileColumn, TileRows(g.height), TileColumns(g.width));
    hide Cell, ByteOf, TileColumns, TileRows;
    raw := seq(RAW_BYTES, i requires 0 <= i < RAW_BYTES reads values =>
      ByteOf(values[i / 2 / TILE_WIDTH, i / 2 % TILE_WIDTH], i % 2));
  }

  /** The window read, the nodata fill and the copy into its corner. */
  method PaddedValues(g: Raster, tileRow: nat, tileColumn: nat) returns (values: array2<Sample>)
    requires WellFormed(g) && tileRow < TileRows(g.height) && tileColumn < TileColumns(g.width)
    ensures fresh(values) && values.Length0 == TILE_HEIGHT && values.Length1 == TILE_WIDTH
    ensures forall r, c :: 0 <= r < TILE_HEIGHT && 0 <= c < TILE_WIDTH ==>
              values[r, c] == Cell(g, tileRow, tileColumn, r, c)
  {
    var columnOffset, rowOffset := tileColumn * TILE_WIDTH, tileRow * TILE_HEIGHT;
    var windowWidth := Min(TILE_WIDTH, g.width - columnOffset);
    var windowHeight := Min(TILE_HEIGHT, g.height - rowOffset);
    var source := seq(windowHeight, r requires 0 <= r < windowHeight =>
      g.rows[rowOffset + r][columnOffset..columnOffset + windowWidth]);
    values := new Sample[TILE_HEIGHT, TILE_WIDTH]((_, _) => NODATA);
    forall r, c | 0 <= r < windowHeight && 0 <= c < windowWidth {
      values[r, c] := source[r][c];
    }
  }

  lemma QuotientUnique(k: nat, d: nat, q: nat, r: nat)
    requires r < d && k == q * d + r
    ensures k / d == q && k % d == r
  {
    hide *;
    var p, t := k / d, k % d;
    assert k == p * d + t;
    assert (p - q) * d == r - t;
    assert p - q >= 1 ==> (p - q) * d >= d;
    assert q - p >= 1 ==> (q - p) * d >= d;
  }

  /** Slot numbers are mixed-radix: every (row, column) has its own slot below the tile count. */
  lemma Slot(tileRow: nat, tileColumn: nat, rows: nat, columns: nat)
    requires tileRow < rows && tileColumn < columns
    ensures tileRow * columns + tileColumn < rows * columns
    ensures (tileRow * columns + tileColumn) / columns == tileRow
    ensures (tileRow * columns + tileColumn) % columns == tileColumn
  {
    hide *;
    assert (tileRow + 1) * columns <= rows * columns;
    QuotientUnique(tileRow * columns + tileColumn, columns, tileRow, tileColumn);
  }

  lemma AppendTile(g: Raster, compress: Compressor, tiles: seq<seq<Byte>>, tile: seq<Byte>, dataOffset: nat)
    requires WellFormed(g) && AreTiles(g, compress, tiles, |tiles|) && tile == compress(TileBytes(g, |tiles|))
    ensures AreTiles(g, compress, tiles + [tile], |tiles| + 1)
    ensures Payload(tiles + [tile]) == Payload(tiles) + tile
    ensures Index(dataOffset, tiles + [tile])
            == Index(dataOffset, tiles) + [Entry(dataOffset + |Payload(tiles)|, |tile|, RAW_BYTES)]
  {
    var all := tiles + [tile];
    assert all[..|all| - 1] == tiles && all[|all| - 1] == tile;
  }

  lemma NoTiles(dataOffset: nat)
    ensures Index(dataOffset, []) == [] && Payload([]) == []
  {
  }

  /** The tile loops: each tile appends to the payload and records where it went. */
  method WriteTiles(g: Raster, compress: Compressor, dataOffset: nat)
    returns (index: seq<Entry>, payload: seq<Byte>)
    requires WellFormed(g)
    ensures index == Index(dataOffset, TileList(g, compress)) && payload == Payload(TileList(g, compress))
  {
    hide TileBytes, TileColumns, TileRows, WellFormed, Index, Payload;
    var tileColumns, tileRows := TileColumns(g.width), TileRows(g.height);
    ghost var tiles: seq<seq<Byte>> := [];
    index, payload := [], [];
    var payloadOffset := 0;
    assert index == Index(dataOffset, tiles) && payload == Payload(tiles) by { NoTiles(dataOffset); }
    for tileRow := 0 to tileRows
      invariant AreTiles(g, compress, tiles, |tiles|) && |tiles| == tileRow * tileColumns
      invariant index == Index(dataOffset, tiles) && payload == Payload(tiles) && payloadOffset == |payload|
    {
      for tileColumn := 0 to tileColumns
        invariant AreTiles(g, compress, tiles, |tiles|) && |tiles| == tileRow * tileColumns + tileColumn
        invariant index == Index(dataOffset, tiles) && payload == Payload(tiles) && payloadOffset == |payload|
      {
        var raw := PaddedTile(g, tileRow, tileColumn);
        var compressed := compress(raw);
        AppendTile(g, compress, tiles, compressed, dataOffset);
        tiles := tiles + [compressed];
        payload := payload + compressed;
        index := index + [Entry(dataOffset + payloadOffset, |compressed|, |raw|)];
        payloadOffset := payloadOffset + |compressed|;
      }
    }
    assert tiles == TileList(g, compress);
  }

  /** Header, index and payload, in that order; struct.pack rejects an out-of-range index field. */
  method Assemble(header: seq<Byte>, index: seq<Entry>, payload: seq<Byte>) returns (r: Result<seq<Byte>, WriteError>)
    ensures r.Ok? <==> forall k :: 0 <= k < |index| ==> Packs(index[k])
    ensures r.Ok? ==> r.value == header + IndexBytes(index) + payload
    ensures r.Err? ==> r.error == StructError
  {
    var file := header;
    for k := 0 to |index|
      invariant forall j :: 0 <= j < k ==> Packs(index[j])
      invariant file == header + IndexBytes(index[..k])
    {
      if !Packs(index[k]) {
        return Err(StructError);
      }
      assert index[..k + 1][..k] == index[..k];
      file := file + EntryBytes(index[k]);
    }
    assert index[..|index|] == index;
    r := Ok(file + payload);
  }

  /** prepare_grid: it fails exactly when the transform is invalid or some struct field is out of range. */
  method PrepareGrid(g: Raster, compress: Compressor, float: FloatReader)
    returns (r: Result<seq<Byte>, WriteError>)
    requires WellFormed(g)
    ensures r == Err(InvalidSource) <==> !SourceTransform(g, float)
    ensures r.Ok? <==> SourceTransform(g, float) && g.width < U32_LIMIT && g.height < U32_LIMIT
                       && forall k :: 0 <= k < TileCount(g) ==> Packs(Index(DataOffset(g), TileList(g, compress))[k])
    ensures r.Ok? ==> IsGridFile(g, TileList(g, compress), r.value)
  {
    if !SourceTransform(g, float) {
      return Err(InvalidSource);
    }
    var header := BuildHeader(g);
    var index, payload := WriteTiles(g, compress, DataOffset(g));
    if g.width >= U32_LIMIT || g.height >= U32_LIMIT {
      r := Err(StructError);
    } else {
      r := Assemble(header[..], index, payload);
    }
  }
}
