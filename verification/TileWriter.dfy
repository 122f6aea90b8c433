/** Tile offset tables from the writer's side: what is accepted of a written table, and the rows kept of it. */
module TileWriter {
  import opened Bytes
  import opened TileTable

  /** A tile without data, or with data at an offset; `size` is written in tables with sizes. */
  datatype Tile = NoData(size: U64) | Data(start: U64, size: U64)

  /** The offset field of a tile without data has all of its 32 bits set. */
  function Code(t: Tile): U64 { if t.NoData? then 0xFFFF_FFFF else t.start }

  /** Fields of these widths can hold the tile, and it is not taken for one without data. */
  predicate ProperTile(t: Tile, offsetBytes: nat, sizeBytes: nat) {
    && Code(t) < Pow256(offsetBytes) && (sizeBytes > 0 ==> t.size < Pow256(sizeBytes))
    && (t.Data? ==> t.start != 0xFFFF_FFFF)
  }

  function WriteTile(t: Tile, offsetBytes: nat, sizeBytes: nat): (s: seq<Byte>)
    ensures |s| == offsetBytes + sizeBytes
  {
    BeBytes(Code(t), offsetBytes) + BeBytes(t.size, sizeBytes)
  }

  /** The table stands in the item data where the reference says. */
  ghost predicate TableWritten(data: seq<Byte>, info: TableInfo, tiles: seq<Tile>) {
    && |data| <= U64_MAX && |tiles| <= U64_MAX && TableFits(data, info, |tiles|)
    && forall i :: 0 <= i < |tiles| ==> TileWritten(data, info, tiles, i)
  }

  ghost predicate TileWritten(data: seq<Byte>, info: TableInfo, tiles: seq<Tile>, i: nat)
    requires i < |tiles|
  {
    var at := RecordAt(info, i);
    && ProperTile(tiles[i], info.offsetBytes, info.sizeBytes) && at + RecordBytes(info) <= |data|
    && data[at..at + RecordBytes(info)] == WriteTile(tiles[i], info.offsetBytes, info.sizeBytes)
  }

  /** The fields of a record are read back. */
  lemma TileIsRead(data: seq<Byte>, info: TableInfo, tiles: seq<Tile>, i: nat)
    requires TableWritten(data, info, tiles) && i < |tiles|
    ensures StartOf(data, info, |tiles|, i) == Code(tiles[i])
    ensures info.sizeBytes > 0 ==> SizeOf(data, info, |tiles|, i) == tiles[i].size
  {
    var at, o, s := RecordAt(info, i), info.offsetBytes, info.sizeBytes;
    assert TileWritten(data, info, tiles, i);
    var a, b := BeBytes(Code(tiles[i]), o), BeBytes(tiles[i].size, s);
    assert at + o + s <= |data| && data[at..at + (o + s)] == a + b;
    hide TableWritten;
    hide TileWritten;
    hide BeValue;
    hide BeBytes;
    FrontAndRest(data, at, BeBytes(Code(tiles[i]), o), BeBytes(tiles[i].size, s));
    BeRoundTrip(Code(tiles[i]), o);
    if s > 0 {
      BeRoundTrip(tiles[i].size, s);
    }
  }

  lemma FrontAndRest(data: seq<Byte>, at: nat, a: seq<Byte>, b: seq<Byte>)
    requires at + |a| + |b| <= |data| && data[at..at + (|a| + |b|)] == a + b
    ensures data[at..at + |a|] == a && data[at + |a|..at + (|a| + |b|)] == b
  {
    SliceOfSlice(data, at, |a| + |b|, 0, |a|);
    SliceOfSlice(data, at, |a| + |b|, |a|, |b|);
  }

  /** A tile without data, or one whose data can be there. */
  ghost predicate TileFits(tiles: seq<Tile>, i: nat, sized: bool, sequential: bool, dataSize: nat)
    requires i < |tiles|
  {
    tiles[i].NoData?
    || (&& tiles[i].start <= dataSize && (sized ==> tiles[i].start + tiles[i].size <= dataSize)
        && (!sized && sequential ==> forall k :: 0 <= k < i && tiles[k].Data? ==> tiles[k].start < tiles[i].start))
  }

  ghost predicate AllFit(tiles: seq<Tile>, sized: bool, sequential: bool, dataSize: nat) {
    forall i :: 0 <= i < |tiles| ==> TileFits(tiles, i, sized, sequential, dataSize)
  }

  lemma WrittenTile(data: seq<Byte>, info: TableInfo, tiles: seq<Tile>, i: nat)
    requires TableWritten(data, info, tiles) && i < |tiles|
    ensures var t := TilesOf(data, info, |tiles|);
            && t.starts[i] == Code(tiles[i]) && (Empty(t, i) <==> tiles[i].NoData?)
            && (t.sized ==> t.sizes[i] == tiles[i].size)
  {
    TileIsRead(data, info, tiles, i);
    assert ProperTile(tiles[i], info.offsetBytes, info.sizeBytes) by {
      assert TileWritten(data, info, tiles, i);
    }
    hide StartOf;
    hide SizeOf;
    hide TableWritten;
  }

  lemma TileOkIsFits(data: seq<Byte>, info: TableInfo, tiles: seq<Tile>, i: nat)
    requires TableWritten(data, info, tiles) && i < |tiles|
    ensures TileOk(TilesOf(data, info, |tiles|), i)
            <==> TileFits(tiles, i, info.sizeBytes > 0, info.sequential, |data|)
  {
    var t := TilesOf(data, info, |tiles|);
    forall k | 0 <= k <= i
      ensures t.starts[k] == Code(tiles[k]) && (Empty(t, k) <==> tiles[k].NoData?)
      ensures t.sized ==> t.sizes[k] == tiles[k].size
    {
      WrittenTile(data, info, tiles, k);
    }
    hide StartOf;
    hide SizeOf;
    hide TableFits;
    hide TableWritten;
    hide Empty;
  }

  /** The table is accepted exactly if every tile can be there. */
  lemma AcceptedIsFitting(data: seq<Byte>, info: TableInfo, tiles: seq<Tile>)
    requires TableWritten(data, info, tiles)
    ensures TilesOk(TilesOf(data, info, |tiles|), |tiles|)
            <==> AllFit(tiles, info.sizeBytes > 0, info.sequential, |data|)
  {
    var t, sized := TilesOf(data, info, |tiles|), info.sizeBytes > 0;
    forall i | 0 <= i < |tiles| ensures TileOk(t, i) <==> TileFits(tiles, i, sized, info.sequential, |data|) {
      TileOkIsFits(data, info, tiles, i);
    }
    hide TileOk;
    hide TileFits;
    hide TableWritten;
    hide StartOf;
    hide SizeOf;
  }

  /** In a table with sizes, a row has the written size, and its tile lies in the data. */
  lemma SizedRow(data: seq<Byte>, info: TableInfo, tiles: seq<Tile>, j: nat)
    requires TableWritten(data, info, tiles) && j < |tiles| && info.sizeBytes > 0
    requires TilesOk(TilesOf(data, info, |tiles|), |tiles|)
    ensures FinalRow(TilesOf(data, info, |tiles|), j)
            == Row(j, Code(tiles[j]), tiles[j].size, true, tiles[j].NoData?)
    ensures tiles[j].Data? ==> tiles[j].start + tiles[j].size <= |data|
  {
    WrittenTile(data, info, tiles, j);
    TileOkIsFits(data, info, tiles, j);
    var t := TilesOf(data, info, |tiles|);
    assert TileOk(t, j);
    hide TileOk;
    hide StartOf;
    hide SizeOf;
    hide TableWritten;
  }

  /** Without sizes and without an order of the tiles there is nothing to tell their sizes from. */
  lemma UnsizedRow(data: seq<Byte>, info: TableInfo, tiles: seq<Tile>, j: nat)
    requires TableWritten(data, info, tiles) && j < |tiles| && info.sizeBytes == 0 && !info.sequential
    requires TilesOk(TilesOf(data, info, |tiles|), |tiles|)
    ensures FinalRow(TilesOf(data, info, |tiles|), j) == Row(j, Code(tiles[j]), 0, false, tiles[j].NoData?)
  {
    WrittenTile(data, info, tiles, j);
    hide StartOf;
    hide SizeOf;
    hide TableWritten;
  }

  /** The next tile with data behind tile `j`, if there is one. */
  ghost predicate IsNext(tiles: seq<Tile>, j: nat, next: nat) {
    j < next < |tiles| && tiles[next].Data? && forall k :: j < k < next ==> tiles[k].NoData?
  }

  /** The numbers of the table say what the tiles say. */
  ghost predicate Says(t: Tiles, tiles: seq<Tile>) {
    && WellFormed(t) && |t.starts| == |tiles|
    && forall k :: 0 <= k < |tiles| ==> t.starts[k] == Code(tiles[k]) && (Empty(t, k) <==> tiles[k].NoData?)
  }

  lemma WrittenSays(data: seq<Byte>, info: TableInfo, tiles: seq<Tile>)
    requires TableWritten(data, info, tiles)
    ensures Says(TilesOf(data, info, |tiles|), tiles)
  {
    var t := TilesOf(data, info, |tiles|);
    forall k | 0 <= k < |tiles| ensures t.starts[k] == Code(tiles[k]) && (Empty(t, k) <==> tiles[k].NoData?) {
      WrittenTile(data, info, tiles, k);
    }
    hide StartOf;
    hide SizeOf;
    hide TableWritten;
    hide Empty;
  }

  /** The row of tile `j` in a table by distance: its tile ends where the next one starts, or with the data. */
  ghost predicate EndsAtNext(row: Row, tiles: seq<Tile>, j: nat, dataSize: nat)
    requires j < |tiles|
  {
    && row.tileIndex == j && tiles[j].Data? && row.startOffset == tiles[j].start && row.haveSize && !row.empty
    && (forall next: nat :: IsNext(tiles, j, next) ==> row.startOffset + row.size == Code(tiles[next]))
    && ((forall k :: j < k < |tiles| ==> tiles[k].NoData?) ==> row.startOffset + row.size == dataSize)
  }

  lemma DistanceRow(data: seq<Byte>, info: TableInfo, tiles: seq<Tile>, j: nat)
    requires TableWritten(data, info, tiles) && j < |tiles| && info.sizeBytes == 0 && info.sequential
    requires TilesOk(TilesOf(data, info, |tiles|), |tiles|) && tiles[j].Data?
    ensures EndsAtNext(FinalRow(TilesOf(data, info, |tiles|), j), tiles, j, |data|)
  {
    var t := TilesOf(data, info, |tiles|);
    assert |tiles| <= U64_MAX && ByDistance(t) && t.dataSize == |data|;
    WrittenSays(data, info, tiles);
    hide *;
    RowReachesNext(t, tiles, j);
  }

  lemma RowReachesNext(t: Tiles, tiles: seq<Tile>, j: nat)
    requires Says(t, tiles) && j < |tiles| <= U64_MAX && tiles[j].Data? && ByDistance(t) && TilesOk(t, |tiles|)
    ensures EndsAtNext(FinalRow(t, j), tiles, j, t.dataSize)
  {
    assert !Empty(t, j);
    TilesTile(t, j);
    RowOfTile(t, j);
    var n := NextTile(t, j + 1, |t.starts|);
    hide FinalRow;
    hide TilesOk;
    hide NextTile;
    if n.Some? {
      assert tiles[n.value].Data?;
    }
    hide Empty;
  }

  lemma RowOfTile(t: Tiles, j: nat)
    requires WellFormed(t) && TilesOk(t, |t.starts|) && j < |t.starts| <= U64_MAX
    ensures FinalRow(t, j).tileIndex == j
  {
  }
}
