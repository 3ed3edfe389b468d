/**
 The runtime reader of TGRID files (gmted2010.rs) as functions of the file's bytes, and the proof
 that it returns exactly the raster that the preparation tool tiled.
 */
module TileGridReader {
  import opened Wrappers
  import opened Bytes
  import opened TileGrid

  type Decompressor = seq<Byte> -> Option<seq<Byte>>

  datatype ReadError = Io | InvalidFormat | FieldMismatch | InvalidCoordinate | NoData(column: nat, row: nat)

  datatype Descriptor = Descriptor(
    fieldId: Byte, width: nat, height: nat, tileWidth: nat, tileHeight: nat,
    transform: seq<seq<Byte>>, nodata: Sample)

  datatype Header = Header(descriptor: Descriptor, tileCount: nat, indexOffset: nat, dataOffset: nat)

  datatype Grid = Grid(file: seq<Byte>, descriptor: Descriptor, index: seq<Entry>)

  // ------------------------------------------------------------------
  // The reader
  // ------------------------------------------------------------------

  function CeilDiv(a: nat, b: nat): nat
    requires b > 0
  {
    if a % b == 0 then a / b else a / b + 1
  }

  /** A field of the file; empty when the file is too short, as read_exact would have failed before. */
  function Slice(file: seq<Byte>, lo: nat, hi: nat): seq<Byte> {
    if lo <= hi <= |file| then file[lo..hi] else []
  }

  function Number(file: seq<Byte>, lo: nat, hi: nat): nat {
    FromLittleEndian(Slice(file, lo, hi))
  }

  function ReadDescriptor(h: seq<Byte>): Descriptor
    requires |h| == HEADER_BYTES
  {
    Descriptor(h[42], Number(h, 24, 28), Number(h, 28, 32), Number(h, 32, 36), Number(h, 36, 40),
               [h[48..56], h[56..64], h[64..72], h[72..80]],
               SignedWord(Number(h, 40, 42) % U16_LIMIT))
  }

  /** Magic, version, header size, codec and reserved bytes. */
  predicate IdentityOk(h: seq<Byte>)
    requires |h| == HEADER_BYTES
  {
    && h[0..16] == MAGIC
    && Number(h, 16, 20) == FORMAT_VERSION
    && Number(h, 20, 24) == HEADER_BYTES
    && h[43] == COMPRESSION_ZLIB
    && h[44..48] == [0, 0, 0, 0]
    && forall i :: 112 <= i < 128 ==> h[i] == 0
  }

  const POLE := 90.0

  /** How far beyond a pole an edge may be registered: half a pixel and a millionth of a degree. */
  function EdgeSlack(spacing: real): real {
    0.5 * Abs(spacing) + 0.000001
  }

  /** TerrainGridDescriptor::validate */
  predicate DescriptorOk(d: Descriptor, float: FloatReader)
    requires |d.transform| == 4
  {
    var west, north := float(d.transform[0]), float(d.transform[1]);
    var column, row := float(d.transform[2]), float(d.transform[3]);
    && d.width != 0 && d.height != 0 && d.tileWidth != 0 && d.tileHeight != 0
    && west.Finite? && north.Finite? && column.Finite? && column.value > 0.0 && row.Finite? && row.value < 0.0
    && Abs(column.value * d.width as real - 360.0) <= 0.000005
    && north.value <= POLE + EdgeSlack(row.value)
    && north.value + row.value * d.height as real >= -POLE - EdgeSlack(row.value)
  }

  function ParseHeader(h: seq<Byte>, float: FloatReader): Result<Header, ReadError>
    requires |h| == HEADER_BYTES
  {
    var d := ReadDescriptor(h);
    if !IdentityOk(h) || (d.fieldId != 1 && d.fieldId != 2) || !DescriptorOk(d, float) then Err(InvalidFormat)
    else if Number(h, 80, 84) != CeilDiv(d.width, d.tileWidth) || Number(h, 84, 88) != CeilDiv(d.height, d.tileHeight)
    then Err(InvalidFormat)
    else Ok(Header(d, Number(h, 88, 96), Number(h, 96, 104), Number(h, 104, 112)))
  }

  function ReadEntry(file: seq<Byte>, at: nat): Entry {
    Entry(Number(file, at, at + 8), Number(file, at + 8, at + 12), Number(file, at + 12, at + 16))
  }

  /** The loop over n index entries at byte `at`; returns them and the offset where the payload must end. */
  function ReadIndex(file: seq<Byte>, at: nat, n: nat, expectedOffset: nat, rawBytes: nat)
    : Result<(seq<Entry>, nat), ReadError>
    decreases n
  {
    if n == 0 then Ok(([], expectedOffset))
    else if at + INDEX_ENTRY_BYTES > |file| then Err(Io)
    else
      var e := ReadEntry(file, at);
      if e.offset != expectedOffset || e.compressed == 0 || e.raw != rawBytes then Err(InvalidFormat)
      else
        match ReadIndex(file, at + INDEX_ENTRY_BYTES, n - 1, expectedOffset + e.compressed, rawBytes)
        case Err(error) => Err(error)
        case Ok(rest) => Ok(([e] + rest.0, rest.1))
  }

  function Open(file: seq<Byte>, expectedField: Byte, float: FloatReader): Result<Grid, ReadError> {
    if |file| < HEADER_BYTES then Err(Io)
    else
      match ParseHeader(file[..HEADER_BYTES], float)
      case Err(error) => Err(error)
      case Ok(header) =>
        var d := header.descriptor;
        if d.fieldId != expectedField then Err(FieldMismatch)
        else if d.tileWidth == 0 || d.tileHeight == 0 then Err(InvalidFormat)
        else
          var tiles := CeilDiv(d.width, d.tileWidth) * CeilDiv(d.height, d.tileHeight);
          if header.tileCount != tiles || header.indexOffset != HEADER_BYTES
             || header.dataOffset != header.indexOffset + tiles * INDEX_ENTRY_BYTES then Err(InvalidFormat)
          else
            match ReadIndex(file, HEADER_BYTES, tiles, header.dataOffset, d.tileWidth * d.tileHeight * 2)
            case Err(error) => Err(error)
            case Ok(index) =>
              if index.1 != |file| then Err(InvalidFormat) else Ok(Grid(file, d, index.0))
  }

  /** One decompressed tile; a tile that expands to any other length is rejected. */
  function Tile(grid: Grid, decompress: Decompressor, index: nat): Result<seq<Byte>, ReadError> {
    if index >= |grid.index| then Err(InvalidFormat)
    else
      var e := grid.index[index];
      if e.offset + e.compressed > |grid.file| then Err(Io)
      else
        match decompress(grid.file[e.offset..e.offset + e.compressed])
        case None => Err(InvalidFormat)
        case Some(raw) => if |raw| != e.raw then Err(InvalidFormat) else Ok(raw)
  }

  function TileIndex(tileRow: nat, tileColumn: nat, tileColumns: nat): nat {
    tileRow * tileColumns + tileColumn
  }

  function LocalIndex(row: nat, column: nat, tileWidth: nat, tileHeight: nat): nat
    requires tileWidth > 0 && tileHeight > 0
  {
    (row % tileHeight) * tileWidth + column % tileWidth
  }

  function ValueAt(grid: Grid, decompress: Decompressor, column: nat, row: nat): Result<Sample, ReadError> {
    var d := grid.descriptor;
    if column >= d.width || row >= d.height || d.tileWidth == 0 || d.tileHeight == 0 then Err(InvalidCoordinate)
    else
      var tileIndex := TileIndex(row / d.tileHeight, column / d.tileWidth, CeilDiv(d.width, d.tileWidth));
      match Tile(grid, decompress, tileIndex)
      case Err(error) => Err(error)
      case Ok(raw) =>
        var local := LocalIndex(row, column, d.tileWidth, d.tileHeight);
        if 2 * local + 2 > |raw| then Err(InvalidFormat)
        else
          var value := SignedWord(FromLittleEndian(raw[2 * local..2 * local + 2]) % U16_LIMIT);
          if value == d.nodata then Err(NoData(column, row)) else Ok(value)
  }

  // ------------------------------------------------------------------
  // Header fields
  // ------------------------------------------------------------------

  lemma FieldReads(h: seq<Byte>, offset: nat, v: nat, n: nat)
    requires Holds(h, offset, LittleEndian(v, n)) && v < Pow256(n)
    ensures Number(h, offset, offset + n) == v
  {
    LittleEndianRoundTrip(v, n);
  }

  /** Both ways of rounding a quotient up agree. */
  lemma CeilingsAgree(w: nat)
    ensures CeilDiv(w, TILE_WIDTH) == TileColumns(w) && CeilDiv(w, TILE_HEIGHT) == TileRows(w)
  {
  }

  lemma ProductBound(a: nat, b: nat, x: nat, y: nat)
    requires a <= x && b <= y
    ensures a * b <= x * y
  {
    assert a * b <= x * b <= x * y;
  }

  lemma TileCountsAgree(g: Raster)
    ensures CeilDiv(g.width, TILE_WIDTH) * CeilDiv(g.height, TILE_HEIGHT) == TileCount(g)
    ensures DataOffset(g) == HEADER_BYTES + TileCount(g) * INDEX_ENTRY_BYTES
  {
    CeilingsAgree(g.width);
    CeilingsAgree(g.height);
  }

  lemma GeometryBounds(g: Raster)
    requires g.width < U32_LIMIT && g.height < U32_LIMIT
    ensures TileColumns(g.width) <= 0x100_0000 && TileRows(g.height) <= 0x100_0000
    ensures TileCount(g) <= 0x1_0000_0000_0000 && DataOffset(g) < U64_LIMIT
  {
    var c, r := TileColumns(g.width), TileRows(g.height);
    ProductBound(r, c, 0x100_0000, 0x100_0000);
  }

  function DescriptorOf(g: Raster): Descriptor {
    Descriptor(g.fieldId, g.width, g.height, TILE_WIDTH, TILE_HEIGHT, g.transform, NODATA)
  }

  lemma ReadsSize(g: Raster, h: seq<Byte>)
    requires IsHeader(g, h) && g.width < U32_LIMIT && g.height < U32_LIMIT
    ensures var d := ReadDescriptor(h);
            d.width == g.width && d.height == g.height && d.tileWidth == TILE_WIDTH && d.tileHeight == TILE_HEIGHT
  {
    Pow256Values();
    FieldReads(h, 24, g.width, 4);
    FieldReads(h, 28, g.height, 4);
    FieldReads(h, 32, TILE_WIDTH, 4);
    FieldReads(h, 36, TILE_HEIGHT, 4);
  }

  lemma ReadsIdentity(g: Raster, h: seq<Byte>)
    requires IsHeader(g, h)
    ensures IdentityOk(h)
  {
    Pow256Values();
    FieldReads(h, 16, FORMAT_VERSION, 4);
    FieldReads(h, 20, HEADER_BYTES, 4);
    assert h[43..44] == [COMPRESSION_ZLIB];
    hide SizeHeader, TransformHeader, LayoutHeader, LittleEndian, Number;
  }

  lemma ReadsEncoding(g: Raster, h: seq<Byte>)
    requires IsHeader(g, h)
    ensures ReadDescriptor(h).fieldId == g.fieldId && ReadDescriptor(h).nodata == NODATA
  {
    Pow256Values();
    FieldReads(h, 40, Word(NODATA), 2);
    assert h[42..43] == [g.fieldId];
  }

  lemma ReadsTransform(g: Raster, h: seq<Byte>)
    requires IsHeader(g, h)
    ensures ReadDescriptor(h).transform == g.transform
  {
    hide IdentityHeader, SizeHeader, EncodingHeader, LayoutHeader, Number, SignedWord;
  }

  lemma ReadsDescriptor(g: Raster, h: seq<Byte>)
    requires IsHeader(g, h) && g.width < U32_LIMIT && g.height < U32_LIMIT
    ensures ReadDescriptor(h) == DescriptorOf(g)
  {
    ReadsSize(g, h);
    ReadsEncoding(g, h);
    ReadsTransform(g, h);
    hide ReadDescriptor, IsHeader;
  }

  lemma ReadsLayout(g: Raster, h: seq<Byte>)
    requires IsHeader(g, h) && g.width < U32_LIMIT && g.height < U32_LIMIT
    ensures Number(h, 80, 84) == TileColumns(g.width) && Number(h, 84, 88) == TileRows(g.height)
    ensures Number(h, 88, 96) == TileCount(g) && Number(h, 96, 104) == HEADER_BYTES
    ensures Number(h, 104, 112) == DataOffset(g)
  {
    Pow256Values();
    GeometryBounds(g);
    FieldReads(h, 80, TileColumns(g.width), 4);
    FieldReads(h, 84, TileRows(g.height), 4);
    FieldReads(h, 88, TileCount(g), 8);
    FieldReads(h, 96, HEADER_BYTES, 8);
    FieldReads(h, 104, DataOffset(g), 8);
  }

  // ------------------------------------------------------------------
  // Index and payload
  // ------------------------------------------------------------------

  /** Tile k occupies the bytes after the first k tiles. */
  lemma {:induction false} PayloadSlice(tiles: seq<seq<Byte>>, k: nat)
    requires k < |tiles|
    ensures |Payload(tiles[..k])| + |tiles[k]| <= |Payload(tiles)|
    ensures Payload(tiles)[|Payload(tiles[..k])|..|Payload(tiles[..k])| + |tiles[k]|] == tiles[k]
  {
    var before := tiles[..|tiles| - 1];
    if k == |tiles| - 1 {
      assert tiles[..k] == before;
    } else {
      PayloadSlice(before, k);
      assert before[..k] == tiles[..k];
    }
  }

  lemma {:induction false} IndexAt(dataOffset: nat, tiles: seq<seq<Byte>>, k: nat)
    requires k < |tiles|
    ensures Index(dataOffset, tiles)[k] == Entry(dataOffset + |Payload(tiles[..k])|, |tiles[k]|, RAW_BYTES)
  {
    var before := tiles[..|tiles| - 1];
    if k == |tiles| - 1 {
      assert tiles[..k] == before;
    } else {
      IndexAt(dataOffset, before, k);
      assert before[..k] == tiles[..k];
    }
  }

  lemma {:induction false} IndexSlice(index: seq<Entry>, k: nat)
    requires k < |index|
    ensures IndexBytes(index)[k * INDEX_ENTRY_BYTES..(k + 1) * INDEX_ENTRY_BYTES] == EntryBytes(index[k])
  {
    var before := index[..|index| - 1];
    if k < |index| - 1 {
      IndexSlice(before, k);
      assert (k + 1) * INDEX_ENTRY_BYTES <= |IndexBytes(before)|;
    }
  }

  lemma EntryFields(e: Entry)
    ensures var b := EntryBytes(e);
            b[0..8] == LittleEndian(e.offset, 8) && b[8..12] == LittleEndian(e.compressed, 4)
            && b[12..16] == LittleEndian(e.raw, 4)
  {
    hide LittleEndian;
  }

  lemma EntryReads(file: seq<Byte>, at: nat, e: Entry)
    requires at + INDEX_ENTRY_BYTES <= |file| && file[at..at + INDEX_ENTRY_BYTES] == EntryBytes(e) && Packs(e)
    ensures ReadEntry(file, at) == e
  {
    Pow256Values();
    EntryFields(e);
    hide EntryBytes, LittleEndian, FromLittleEndian;
    SliceOfSlice(file, at, INDEX_ENTRY_BYTES, 0, 8);
    SliceOfSlice(file, at, INDEX_ENTRY_BYTES, 8, 12);
    SliceOfSlice(file, at, INDEX_ENTRY_BYTES, 12, 16);
    LittleEndianRoundTrip(e.offset, 8);
    LittleEndianRoundTrip(e.compressed, 4);
    LittleEndianRoundTrip(e.raw, 4);
  }

  /** From byte `at` on the file holds these entries. */
  ghost predicate HoldsEntries(file: seq<Byte>, at: nat, index: seq<Entry>) {
    && at + |IndexBytes(index)| <= |file|
    && file[at..at + |IndexBytes(index)|] == IndexBytes(index)
    && forall k :: 0 <= k < |index| ==> Packs(index[k])
  }

  lemma EntryHeld(file: seq<Byte>, at: nat, index: seq<Entry>, k: nat)
    requires HoldsEntries(file, at, index) && k < |index|
    ensures at + (k + 1) * INDEX_ENTRY_BYTES <= |file|
    ensures ReadEntry(file, at + k * INDEX_ENTRY_BYTES) == index[k]
  {
    hide ReadEntry, EntryBytes, IndexBytes;
    IndexSlice(index, k);
    var lo, hi := k * INDEX_ENTRY_BYTES, (k + 1) * INDEX_ENTRY_BYTES;
    assert hi <= |IndexBytes(index)|;
    assert file[at + lo..at + hi] == file[at..at + |IndexBytes(index)|][lo..hi];
    EntryReads(file, at + lo, index[k]);
  }

  /** Reading entry by entry from byte `at` yields exactly these entries. */
  ghost predicate Readable(file: seq<Byte>, at: nat, index: seq<Entry>)
    decreases |index|
  {
    index == [] || (at + INDEX_ENTRY_BYTES <= |file| && ReadEntry(file, at) == index[0]
                    && Readable(file, at + INDEX_ENTRY_BYTES, index[1..]))
  }

  lemma {:induction false} HeldIsReadable(file: seq<Byte>, at: nat, index: seq<Entry>, k: nat)
    requires HoldsEntries(file, at, index) && k <= |index|
    ensures Readable(file, at + k * INDEX_ENTRY_BYTES, index[k..])
    decreases |index| - k
  {
    hide HoldsEntries, ReadEntry, IndexBytes;
    if k < |index| {
      EntryHeld(file, at, index, k);
      HeldIsReadable(file, at, index, k + 1);
      assert index[k..][1..] == index[k + 1..];
      assert at + (k + 1) * INDEX_ENTRY_BYTES == at + k * INDEX_ENTRY_BYTES + INDEX_ENTRY_BYTES;
    }
  }

  /** A table whose extents run contiguously from one offset to another. */
  ghost predicate Contiguous(index: seq<Entry>, from: nat, to: nat)
    decreases |index|
  {
    if index == [] then from == to
    else index[0].offset == from && Contiguous(index[1..], from + index[0].compressed, to)
  }

  /** Extents are contiguous, hence disjoint, start at the data offset and end with the payload. */
  lemma {:induction false} IndexContiguous(dataOffset: nat, tiles: seq<seq<Byte>>, k: nat)
    requires k <= |tiles|
    ensures Contiguous(Index(dataOffset, tiles)[k..], dataOffset + |Payload(tiles[..k])|, dataOffset + |Payload(tiles)|)
    decreases |tiles| - k
  {
    var index := Index(dataOffset, tiles);
    if k == |tiles| {
      assert tiles[..k] == tiles;
    } else {
      IndexAt(dataOffset, tiles, k);
      IndexContiguous(dataOffset, tiles, k + 1);
      assert tiles[..k + 1][..k] == tiles[..k];
      assert index[k..][1..] == index[k + 1..];
    }
  }

  ghost predicate Sized(index: seq<Entry>, rawBytes: nat) {
    forall k :: 0 <= k < |index| ==> index[k].compressed != 0 && index[k].raw == rawBytes
  }

  /** The reading loop recovers any contiguous index of nonempty extents. */
  lemma {:induction false} ReadsIndex(file: seq<Byte>, at: nat, index: seq<Entry>, from: nat, to: nat, rawBytes: nat)
    requires Readable(file, at, index) && Contiguous(index, from, to) && Sized(index, rawBytes)
    ensures ReadIndex(file, at, |index|, from, rawBytes) == Ok((index, to))
    decreases |index|
  {
    if index != [] {
      assert Sized(index[1..], rawBytes);
      assert index == [index[0]] + index[1..];
      ReadsIndex(file, at + INDEX_ENTRY_BYTES, index[1..], from + index[0].compressed, to, rawBytes);
    }
  }

  // ------------------------------------------------------------------
  // Round trip
  // ------------------------------------------------------------------

  /** zlib: decompression undoes compression, and no stream is empty. */
  ghost predicate Codec(compress: Compressor, decompress: Decompressor) {
    forall raw :: compress(raw) != [] && decompress(compress(raw)) == Some(raw)
  }

  /** The raster lies between the poles, up to the edge slack, and its transform is finite. */
  predicate BetweenPoles(g: Raster, float: FloatReader)
    requires WellFormed(g)
  {
    var north, row := float(g.transform[1]), float(g.transform[3]);
    && (forall i :: 0 <= i < 4 ==> float(g.transform[i]).Finite?)
    && north.value <= POLE + EdgeSlack(row.value)
    && north.value + row.value * g.height as real >= -POLE - EdgeSlack(row.value)
  }

  /** Of the transforms that the writer accepts, the reader accepts exactly those between the poles. */
  lemma ReaderTransformExact(g: Raster, float: FloatReader)
    requires WellFormed(g) && SourceTransform(g, float)
    ensures DescriptorOk(DescriptorOf(g), float) <==> BetweenPoles(g, float)
  {
    assert float(g.transform[0]).Finite? && float(g.transform[1]).Finite?
           && float(g.transform[2]).Finite? && float(g.transform[3]).Finite?
           <==> forall i :: 0 <= i < 4 ==> float(g.transform[i]).Finite?;
  }

  lemma HeaderParses(g: Raster, h: seq<Byte>, float: FloatReader)
    requires IsHeader(g, h) && g.width < U32_LIMIT && g.height < U32_LIMIT
    ensures ParseHeader(h, float)
            == if DescriptorOk(DescriptorOf(g), float)
               then Ok(Header(DescriptorOf(g), TileCount(g), HEADER_BYTES, DataOffset(g)))
               else Err(InvalidFormat)
  {
    ReadsDescriptor(g, h);
    ReadsSize(g, h);
    ReadsIdentity(g, h);
    ReadsLayout(g, h);
    CeilingsAgree(g.width);
    CeilingsAgree(g.height);
    hide DescriptorOk, IsHeader, IdentityOk, ReadDescriptor, Number, TileColumns, TileRows, TileCount, DataOffset;
  }

  /** The written index is read back, and the payload it describes ends at the end of the file. */
  lemma WrittenIndexReads(file: seq<Byte>, at: nat, dataOffset: nat, tiles: seq<seq<Byte>>)
    requires HoldsEntries(file, at, Index(dataOffset, tiles))
    requires forall k :: 0 <= k < |tiles| ==> tiles[k] != []
    ensures ReadIndex(file, at, |tiles|, dataOffset, RAW_BYTES)
            == Ok((Index(dataOffset, tiles), dataOffset + |Payload(tiles)|))
  {
    hide IndexBytes, ReadIndex, ReadEntry, Readable, Contiguous, HoldsEntries, Index;
    var index := Index(dataOffset, tiles);
    HeldIsReadable(file, at, index, 0);
    IndexContiguous(dataOffset, tiles, 0);
    assert tiles[..0] == [] && Payload(tiles[..0]) == [] && index[0..] == index;
    assert at + 0 * INDEX_ENTRY_BYTES == at;
    assert Sized(index, RAW_BYTES) by {
      forall k | 0 <= k < |index| ensures index[k].compressed != 0 && index[k].raw == RAW_BYTES {
        IndexAt(dataOffset, tiles, k);
      }
    }
    ReadsIndex(file, at, index, dataOffset, dataOffset + |Payload(tiles)|, RAW_BYTES);
  }

  /** The grid the reader should hold for a written file. */
  ghost predicate IsOpened(g: Raster, tiles: seq<seq<Byte>>, grid: Grid) {
    && grid.descriptor == DescriptorOf(g)
    && grid.index == Index(DataOffset(g), tiles)
    && |grid.file| == DataOffset(g) + |Payload(tiles)|
    && grid.file[DataOffset(g)..] == Payload(tiles)
  }

  lemma HeaderSize(g: Raster, h: seq<Byte>)
    requires IsHeader(g, h)
    ensures |h| == HEADER_BYTES
  {
  }

  lemma TilesNonempty(g: Raster, compress: Compressor, decompress: Decompressor, tiles: seq<seq<Byte>>)
    requires Codec(compress, decompress) && WellFormed(g) && AreTiles(g, compress, tiles, TileCount(g))
    ensures |tiles| == TileCount(g) && forall k :: 0 <= k < |tiles| ==> tiles[k] != []
  {
  }

  lemma Parts(head: seq<Byte>, middle: seq<Byte>, tail: seq<Byte>, file: seq<Byte>)
    requires file == head + middle + tail
    ensures file[..|head|] == head
    ensures file[|head|..|head| + |middle|] == middle
    ensures file[|head| + |middle|..] == tail
  {
  }

  lemma OpensFromParts(g: Raster, file: seq<Byte>, index: seq<Entry>, float: FloatReader)
    requires |file| >= HEADER_BYTES
    requires ParseHeader(file[..HEADER_BYTES], float)
             == Ok(Header(DescriptorOf(g), TileCount(g), HEADER_BYTES, DataOffset(g)))
    requires CeilDiv(g.width, TILE_WIDTH) * CeilDiv(g.height, TILE_HEIGHT) == TileCount(g)
    requires DataOffset(g) == HEADER_BYTES + TileCount(g) * INDEX_ENTRY_BYTES
    requires ReadIndex(file, HEADER_BYTES, TileCount(g), DataOffset(g), RAW_BYTES) == Ok((index, |file|))
    ensures Open(file, g.fieldId, float) == Ok(Grid(file, DescriptorOf(g), index))
  {
    hide ParseHeader, ReadIndex, CeilDiv, TileCount, DataOffset;
  }

  lemma OpensBehindHeader(g: Raster, float: FloatReader, h: seq<Byte>, tiles: seq<seq<Byte>>, file: seq<Byte>)
    requires IsHeader(g, h) && g.width < U32_LIMIT && g.height < U32_LIMIT
    requires DescriptorOk(DescriptorOf(g), float)
    requires |file| >= HEADER_BYTES && file[..HEADER_BYTES] == h
    requires |tiles| == TileCount(g) && |file| == DataOffset(g) + |Payload(tiles)|
    requires HoldsEntries(file, HEADER_BYTES, Index(DataOffset(g), tiles))
    requires forall k :: 0 <= k < |tiles| ==> tiles[k] != []
    ensures Open(file, g.fieldId, float) == Ok(Grid(file, DescriptorOf(g), Index(DataOffset(g), tiles)))
  {
    hide *;
    HeaderSize(g, h);
    TileCountsAgree(g);
    HeaderParses(g, h, float);
    WrittenIndexReads(file, HEADER_BYTES, DataOffset(g), tiles);
    OpensFromParts(g, file, Index(DataOffset(g), tiles), float);
  }

  lemma RefusedBehindHeader(g: Raster, float: FloatReader, h: seq<Byte>, file: seq<Byte>)
    requires IsHeader(g, h) && g.width < U32_LIMIT && g.height < U32_LIMIT
    requires !DescriptorOk(DescriptorOf(g), float)
    requires |file| >= HEADER_BYTES && file[..HEADER_BYTES] == h
    ensures Open(file, g.fieldId, float) == Err(InvalidFormat)
  {
    HeaderParses(g, h, float);
    hide ParseHeader, IsHeader, DescriptorOk, DescriptorOf;
  }

  /** The three parts of a written file. */
  lemma WrittenParts(g: Raster, tiles: seq<seq<Byte>>, file: seq<Byte>) returns (h: seq<Byte>)
    requires |tiles| == TileCount(g) && IsGridFile(g, tiles, file)
    ensures IsHeader(g, h) && |file| >= HEADER_BYTES && file[..HEADER_BYTES] == h
    ensures |file| == DataOffset(g) + |Payload(tiles)| && file[DataOffset(g)..] == Payload(tiles)
    ensures HoldsEntries(file, HEADER_BYTES, Index(DataOffset(g), tiles))
  {
    var index := Index(DataOffset(g), tiles);
    h :| IsHeader(g, h) && file == h + IndexBytes(index) + Payload(tiles);
    hide Index, IsHeader, Payload, TileCount, EntryBytes, IndexBytes;
    HeaderSize(g, h);
    Parts(h, IndexBytes(index), Payload(tiles), file);
  }

  lemma HoldsWritten(g: Raster, tiles: seq<seq<Byte>>, file: seq<Byte>)
    requires |file| == DataOffset(g) + |Payload(tiles)| && file[DataOffset(g)..] == Payload(tiles)
    ensures IsOpened(g, tiles, Grid(file, DescriptorOf(g), Index(DataOffset(g), tiles)))
  {
    hide DataOffset, Payload, Index, DescriptorOf;
  }

  /**
   The reader accepts a file that the writer finished exactly when the raster lies between the
   poles, which the writer does not check; it then holds the writer's geometry, index and payload.
   */
  lemma WrittenFileOpens(g: Raster, compress: Compressor, decompress: Decompressor, float: FloatReader,
                         tiles: seq<seq<Byte>>, file: seq<Byte>)
    requires Codec(compress, decompress) && WellFormed(g)
    requires AreTiles(g, compress, tiles, TileCount(g)) && IsGridFile(g, tiles, file)
    requires SourceTransform(g, float)
    ensures var outcome := Open(file, g.fieldId, float);
            && (outcome.Ok? <==> BetweenPoles(g, float))
            && (outcome.Ok? ==> outcome.value.file == file && IsOpened(g, tiles, outcome.value))
            && (outcome.Err? ==> outcome.error == InvalidFormat)
  {
    assert g.width < U32_LIMIT && g.height < U32_LIMIT;
    hide *;
    TilesNonempty(g, compress, decompress, tiles);
    ReaderTransformExact(g, float);
    var h := WrittenParts(g, tiles, file);
    if BetweenPoles(g, float) {
      OpensBehindHeader(g, float, h, tiles, file);
      HoldsWritten(g, tiles, file);
    } else {
      RefusedBehindHeader(g, float, h, file);
    }
  }

  /** A one-pixel raster whose northern edge is one degree beyond the pole. */
  function BeyondPole(transform: seq<seq<Byte>>): Raster {
    Raster(1, 1, [[0]], 1, transform)
  }

  ghost predicate EncodesBeyondPole(transform: seq<seq<Byte>>, float: FloatReader) {
    && |transform| == 4 && (forall i :: 0 <= i < 4 ==> |transform[i]| == 8)
    && float(transform[0]) == Finite(-180.0) && float(transform[1]) == Finite(91.0)
    && float(transform[2]) == Finite(360.0) && float(transform[3]) == Finite(-1.0)
  }

  lemma BeyondPoleTransform(transform: seq<seq<Byte>>, float: FloatReader)
    requires EncodesBeyondPole(transform, float)
    ensures var g := BeyondPole(transform); WellFormed(g) && SourceTransform(g, float) && !BetweenPoles(g, float)
  {
  }

  lemma OneTileFits(transform: seq<seq<Byte>>, compress: Compressor, float: FloatReader)
    requires EncodesBeyondPole(transform, float)
    requires |compress(TileBytes(BeyondPole(transform), 0))| < U32_LIMIT
    ensures var g := BeyondPole(transform);
            forall k :: 0 <= k < TileCount(g) ==> Packs(Index(DataOffset(g), TileList(g, compress))[k])
  {
    var g := BeyondPole(transform);
    var tiles := TileList(g, compress);
    assert TileCount(g) == 1 && tiles == [tiles[0]];
    hide TileBytes;
    assert tiles[..0] == [] && Index(DataOffset(g), tiles[..0]) == [];
    assert Index(DataOffset(g), tiles)[0] == Entry(DataOffset(g), |tiles[0]|, RAW_BYTES);
  }

  /** The writer finishes the file of the raster beyond the pole, and the reader refuses that file. */
  method WriteBeyondPole(compress: Compressor, ghost decompress: Decompressor, float: FloatReader,
                         transform: seq<seq<Byte>>)
    returns (file: seq<Byte>)
    requires EncodesBeyondPole(transform, float) && Codec(compress, decompress)
    requires |compress(TileBytes(BeyondPole(transform), 0))| < U32_LIMIT
    ensures WellFormed(BeyondPole(transform)) && SourceTransform(BeyondPole(transform), float)
    ensures IsGridFile(BeyondPole(transform), TileList(BeyondPole(transform), compress), file)
    ensures Open(file, 1, float) == Err(InvalidFormat)
  {
    var g := BeyondPole(transform);
    BeyondPoleTransform(transform, float);
    OneTileFits(transform, compress, float);
    hide TileList, TileBytes, IsGridFile, Open, AreTiles, Codec, BetweenPoles, SourceTransform, EncodesBeyondPole,
         Index, WellFormed, Packs;
    var r := PrepareGrid(g, compress, float);
    file := r.value;
    WrittenFileOpens(g, compress, decompress, float, TileList(g, compress), file);
  }

  lemma BytesRead(v: Sample)
    ensures SignedWord(FromLittleEndian([ByteOf(v, 0), ByteOf(v, 1)]) % U16_LIMIT) == v
  {
    var pair: seq<Byte> := [ByteOf(v, 0), ByteOf(v, 1)];
    assert pair[1..] == [pair[1]];
    assert FromLittleEndian(pair[1..]) == pair[1] + 256 * FromLittleEndian(pair[1..][1..]);
  }

  lemma SampleBytes(g: Raster, k: nat, local: nat)
    requires WellFormed(g) && local < TILE_SAMPLES
    ensures var columns := TileColumns(g.width);
            var v := Cell(g, k / columns, k % columns, local / TILE_WIDTH, local % TILE_WIDTH);
            TileBytes(g, k)[2 * local..2 * local + 2] == [ByteOf(v, 0), ByteOf(v, 1)]
  {
    hide Cell, TileColumns, ByteOf;
    assert 2 * local / 2 == local && (2 * local + 1) / 2 == local;
  }

  lemma SampleReads(g: Raster, k: nat, local: nat)
    requires WellFormed(g) && local < TILE_SAMPLES
    ensures SignedWord(FromLittleEndian(TileBytes(g, k)[2 * local..2 * local + 2]) % U16_LIMIT)
            == Cell(g, k / TileColumns(g.width), k % TileColumns(g.width), local / TILE_WIDTH, local % TILE_WIDTH)
  {
    SampleBytes(g, k, local);
    hide *;
    BytesRead(Cell(g, k / TileColumns(g.width), k % TileColumns(g.width), local / TILE_WIDTH, local % TILE_WIDTH));
  }

  lemma LocalIndexSplits(row: nat, column: nat)
    ensures var local := LocalIndex(row, column, TILE_WIDTH, TILE_HEIGHT);
            local < TILE_SAMPLES && local / TILE_WIDTH == row % TILE_HEIGHT && local % TILE_WIDTH == column % TILE_WIDTH
  {
  }

  lemma PixelIsCell(g: Raster, column: nat, row: nat)
    requires WellFormed(g) && column < g.width && row < g.height
    ensures Cell(g, row / TILE_HEIGHT, column / TILE_WIDTH, row % TILE_HEIGHT, column % TILE_WIDTH)
            == g.rows[row][column]
    ensures row / TILE_HEIGHT < TileRows(g.height) && column / TILE_WIDTH < TileColumns(g.width)
  {
  }

  /**
   Round trip: every pixel of the raster is returned at its own coordinates, as its value or as the
   missing-data report, and no other coordinate is answered.
   */
  lemma EveryPixelReadsBack(g: Raster, compress: Compressor, decompress: Decompressor,
                            tiles: seq<seq<Byte>>, grid: Grid, column: nat, row: nat)
    requires Codec(compress, decompress) && WellFormed(g) && AreTiles(g, compress, tiles, TileCount(g))
    requires IsOpened(g, tiles, grid)
    ensures ValueAt(grid, decompress, column, row) ==
            if column >= g.width || row >= g.height then Err(InvalidCoordinate)
            else if g.rows[row][column] == NODATA then Err(NoData(column, row))
            else Ok(g.rows[row][column])
  {
    hide TileBytes, Cell, TileRows, TileColumns, Tile, FromLittleEndian, AreTiles, LocalIndex;
    if column < g.width && row < g.height {
      var columns := TileColumns(g.width);
      var k := (row / TILE_HEIGHT) * columns + column / TILE_WIDTH;
      PixelIsCell(g, column, row);
      Slot(row / TILE_HEIGHT, column / TILE_WIDTH, TileRows(g.height), columns);
      CeilingsAgree(g.width);
      TileReads(g, compress, decompress, tiles, grid, k);
      LocalIndexSplits(row, column);
      SampleReads(g, k, LocalIndex(row, column, TILE_WIDTH, TILE_HEIGHT));
    }
  }

  lemma TileReads(g: Raster, compress: Compressor, decompress: Decompressor,
                  tiles: seq<seq<Byte>>, grid: Grid, k: nat)
    requires Codec(compress, decompress) && WellFormed(g) && AreTiles(g, compress, tiles, TileCount(g))
    requires IsOpened(g, tiles, grid) && k < TileCount(g)
    ensures Tile(grid, decompress, k) == Ok(TileBytes(g, k))
  {
    IndexAt(DataOffset(g), tiles, k);
    PayloadSlice(tiles, k);
    var e := grid.index[k];
    var lo := |Payload(tiles[..k])|;
    assert grid.file[e.offset..e.offset + e.compressed] == grid.file[DataOffset(g)..][lo..lo + |tiles[k]|];
  }

  /** From raster to file to pixel: reading any file that the writer made for the raster gives the raster back. */
  lemma RasterRoundTrip(g: Raster, compress: Compressor, decompress: Decompressor, float: FloatReader, file: seq<Byte>)
    requires Codec(compress, decompress) && WellFormed(g) && IsGridFile(g, TileList(g, compress), file)
    requires SourceTransform(g, float)
    ensures Open(file, g.fieldId, float).Ok? <==> BetweenPoles(g, float)
    ensures Open(file, g.fieldId, float).Ok? ==> forall column: nat, row: nat ::
              ValueAt(Open(file, g.fieldId, float).value, decompress, column, row) ==
              if column >= g.width || row >= g.height then Err(InvalidCoordinate)
              else if g.rows[row][column] == NODATA then Err(NoData(column, row))
              else Ok(g.rows[row][column])
  {
    var tiles := TileList(g, compress);
    hide TileList, IsGridFile, Open, ValueAt, IsOpened, AreTiles, Codec;
    WrittenFileOpens(g, compress, decompress, float, tiles, file);
    if Open(file, g.fieldId, float).Err? {
      return;
    }
    var grid := Open(file, g.fieldId, float).value;
    forall column: nat, row: nat
      ensures ValueAt(grid, decompress, column, row) ==
              if column >= g.width || row >= g.height then Err(InvalidCoordinate)
              else if g.rows[row][column] == NODATA then Err(NoData(column, row))
              else Ok(g.rows[row][column])
    {
      EveryPixelReadsBack(g, compress, decompress, tiles, grid, column, row);
    }
  }

  /** Every cell of every tile beyond the raster's edge decodes as nodata. */
  lemma PaddingIsNodata(g: Raster, k: nat, local: nat)
    requires WellFormed(g) && k < TileCount(g) && local < TILE_SAMPLES
    requires var columns := TileColumns(g.width);
             k % columns * TILE_WIDTH + local % TILE_WIDTH >= g.width
             || k / columns * TILE_HEIGHT + local / TILE_WIDTH >= g.height
    ensures SignedWord(FromLittleEndian(TileBytes(g, k)[2 * local..2 * local + 2]) % U16_LIMIT) == NODATA
  {
    SampleReads(g, k, local);
  }
}
