/**
 * The tile offset table of a tiled image item: one record per tile with the offset and, optionally,
 * the size of its data within the item. In sequential tables without sizes the size of a tile is the
 * distance to the next tile.
 */
module TileTable {
  import opened Bytes
  import opened ItemData
  import opened ItemResolver
  import opened ItemCursor

  const MAX_OFFSETS_TO_VALIDATE := 0x4_0000
  const MAX_OFFSET_ROWS := 64
  const EMPTY_TILE := U32_MAX

  /** The data reference that describes the table. */
  datatype TableInfo = TableInfo(
    offsetBytes: nat, sizeBytes: nat, tableStart: U64, tableSize: U64, sequential: bool, external: bool)

  /** One row of the table as it is kept. */
  datatype Row = Row(tileIndex: U64, startOffset: U64, size: U64, haveSize: bool, empty: bool)

  const NO_ROW := Row(0, 0, 0, false, false)

  // ----- what the table says -------------------------------------------------------------------------

  function RecordBytes(info: TableInfo): nat { info.offsetBytes + info.sizeBytes }

  /** All records lie in the item data, and their fields can be read. */
  predicate TableFits(data: seq<Byte>, info: TableInfo, count: nat) {
    && info.offsetBytes <= 8 && info.sizeBytes <= 8
    && count * RecordBytes(info) == info.tableSize && info.tableStart + info.tableSize <= |data|
  }

  function RecordAt(info: TableInfo, i: nat): nat { info.tableStart + i * RecordBytes(info) }

  lemma {:induction false} OneMoreFits(i: nat, n: nat, r: nat)
    requires i < n
    ensures i * r + r <= n * r && (i + 1) * r == i * r + r
  {
    if i + 1 < n {
      OneMoreFits(i, n - 1, r);
      assert n * r == (n - 1) * r + r;
    }
  }

  lemma RecordInTable(info: TableInfo, i: nat, count: nat)
    requires i < count
    ensures i * RecordBytes(info) + RecordBytes(info) <= count * RecordBytes(info)
    ensures RecordAt(info, i + 1) == RecordAt(info, i) + RecordBytes(info)
  {
    OneMoreFits(i, count, RecordBytes(info));
  }

  /** The offset of tile `i`. */
  function StartOf(data: seq<Byte>, info: TableInfo, count: nat, i: nat): U64
    requires TableFits(data, info, count) && i < count
  {
    RecordInTable(info, i, count);
    FieldFits(data[RecordAt(info, i)..RecordAt(info, i) + info.offsetBytes]);
    BeValue(data[RecordAt(info, i)..RecordAt(info, i) + info.offsetBytes])
  }

  /** The size of tile `i` as written, or 0. */
  function SizeOf(data: seq<Byte>, info: TableInfo, count: nat, i: nat): U64
    requires TableFits(data, info, count) && i < count
  {
    RecordInTable(info, i, count);
    FieldFits(data[RecordAt(info, i) + info.offsetBytes..RecordAt(info, i) + RecordBytes(info)]);
    BeValue(data[RecordAt(info, i) + info.offsetBytes..RecordAt(info, i) + RecordBytes(info)])
  }

  /** A table as numbers. */
  datatype Tiles = Tiles(starts: seq<U64>, sizes: seq<U64>, sized: bool, sequential: bool, dataSize: U64)

  predicate WellFormed(t: Tiles) { |t.starts| == |t.sizes| }

  function TilesOf(data: seq<Byte>, info: TableInfo, count: nat): (t: Tiles)
    requires TableFits(data, info, count) && |data| <= U64_MAX
    ensures WellFormed(t) && |t.starts| == count
  {
    Tiles(seq(count, i requires 0 <= i < count => StartOf(data, info, count, i)),
          seq(count, i requires 0 <= i < count => SizeOf(data, info, count, i)),
          info.sizeBytes != 0, info.sequential, |data|)
  }

  predicate Empty(t: Tiles, i: nat)
    requires i < |t.starts|
  {
    t.starts[i] == EMPTY_TILE
  }

  /** The sizes are the distances between the tiles. */
  predicate ByDistance(t: Tiles) { !t.sized && t.sequential }

  /** Tile `i` is empty, or it lies in the data, and behind all tiles before it where sizes are distances. */
  ghost predicate TileOk(t: Tiles, i: nat)
    requires WellFormed(t) && i < |t.starts|
  {
    Empty(t, i)
    || (&& t.starts[i] <= t.dataSize
        && (t.sized ==> t.sizes[i] <= t.dataSize - t.starts[i])
        && (ByDistance(t) ==> forall k :: 0 <= k < i && !Empty(t, k) ==> t.starts[k] < t.starts[i]))
  }

  ghost predicate TilesOk(t: Tiles, n: nat)
    requires WellFormed(t) && n <= |t.starts|
  {
    forall i :: 0 <= i < n ==> TileOk(t, i)
  }

  /** The last tile among the first `n` that is not empty. */
  function LastTile(t: Tiles, n: nat): (r: Option<nat>)
    requires n <= |t.starts|
    ensures r.Some? ==> r.value < n && !Empty(t, r.value) && forall k :: r.value < k < n ==> Empty(t, k)
    ensures r.None? ==> forall k :: 0 <= k < n ==> Empty(t, k)
  {
    if n == 0 then None else if !Empty(t, n - 1) then Some(n - 1) else LastTile(t, n - 1)
  }

  /** The first tile in `[from, n)` that is not empty. */
  function NextTile(t: Tiles, from: nat, n: nat): (r: Option<nat>)
    requires n <= |t.starts|
    ensures r.Some? ==> from <= r.value < n && !Empty(t, r.value) && forall k :: from <= k < r.value ==> Empty(t, k)
    ensures r.None? ==> forall k :: from <= k < n ==> Empty(t, k)
    decreases |t.starts| - from
  {
    if from >= n then None else if !Empty(t, from) then Some(from) else NextTile(t, from + 1, n)
  }

  /** The row of tile `j` when `n` tiles have been read. */
  ghost function RowAfter(t: Tiles, j: nat, n: nat): Row
    requires WellFormed(t) && j < n <= |t.starts| <= U64_MAX && TilesOk(t, n)
  {
    assert TileOk(t, j);
    var row := Row(j, t.starts[j], 0, false, Empty(t, j));
    if t.sized then row.(size := t.sizes[j], haveSize := true)
    else if !t.sequential || Empty(t, j) || NextTile(t, j + 1, n).None? then row
    else
      var next := NextTile(t, j + 1, n).value;
      assert TileOk(t, next);
      row.(size := t.starts[next] - t.starts[j], haveSize := true)
  }

  /** The row of tile `j` in the end: the last tile reaches to the end of the data. */
  ghost function FinalRow(t: Tiles, j: nat): Row
    requires WellFormed(t) && TilesOk(t, |t.starts|) && j < |t.starts| <= U64_MAX
  {
    var row := RowAfter(t, j, |t.starts|);
    assert TileOk(t, j);
    if ByDistance(t) && LastTile(t, |t.starts|) == Some(j) then row.(size := t.dataSize - t.starts[j], haveSize := true)
        else row
  }

  // ----- tiling ---------------------------------------------------------------------------------------------

  /**
   * In a table by distance, a tile that is not empty ends where the next one starts, and the last one
   * where the data ends. So the tiles cover the data from the first offset to the end, in order and
   * without gap or overlap.
   */
  lemma TilesTile(t: Tiles, j: nat)
    requires WellFormed(t) && TilesOk(t, |t.starts|) && j < |t.starts| <= U64_MAX
    requires ByDistance(t) && !Empty(t, j)
    ensures var row := FinalRow(t, j);
            var next := NextTile(t, j + 1, |t.starts|);
            && row.haveSize && !row.empty && row.startOffset == t.starts[j]
            && row.startOffset + row.size == if next.Some? then t.starts[next.value] else t.dataSize
  {
    var next, last := NextTile(t, j + 1, |t.starts|), LastTile(t, |t.starts|);
    assert TileOk(t, j);
    if next.Some? {
      assert last.value >= next.value;
    }
  }

  /** The total size of the tiles among the first `n`. */
  ghost function TotalSize(t: Tiles, n: nat): nat
    requires WellFormed(t) && TilesOk(t, |t.starts|) && n <= |t.starts| <= U64_MAX
  {
    if n == 0 then 0 else TotalSize(t, n - 1) + if Empty(t, n - 1) then 0 else FinalRow(t, n - 1).size
  }

  /** The sizes add up to the distance from the first tile to the end of the data. */
  lemma {:induction false} SizesAddUp(t: Tiles, n: nat)
    requires WellFormed(t) && TilesOk(t, |t.starts|) && n <= |t.starts| <= U64_MAX && ByDistance(t)
    ensures var first := NextTile(t, 0, |t.starts|);
            var next := NextTile(t, n, |t.starts|);
            TotalSize(t, n) == if first.None? || first.value >= n then 0
                               else (if next.Some? then t.starts[next.value] else t.dataSize) - t.starts[first.value]
  {
    if n > 0 {
      SizesAddUp(t, n - 1);
      if !Empty(t, n - 1) {
        TilesTile(t, n - 1);
      }
      hide FinalRow;
    }
  }

  // ----- one more row -----------------------------------------------------------------------------------------

  lemma {:induction false} NextTileGrows(t: Tiles, from: nat, n: nat)
    requires n < |t.starts| && from <= n
    ensures NextTile(t, from, n + 1)
            == if NextTile(t, from, n).Some? then NextTile(t, from, n) else if Empty(t, n) then None else Some(n)
    decreases n - from
  {
    if from < n && Empty(t, from) {
      NextTileGrows(t, from + 1, n);
    }
  }

  /** Tile `i` gives a size to the tile before it, and changes no other row. */
  lemma RowGrows(t: Tiles, j: nat, i: nat)
    requires WellFormed(t) && j < i < |t.starts| <= U64_MAX && TilesOk(t, i + 1)
    ensures TilesOk(t, i)
    ensures ByDistance(t) && !Empty(t, i) && LastTile(t, i) == Some(j) ==>
              && t.starts[j] < t.starts[i]
              && RowAfter(t, j, i + 1) == RowAfter(t, j, i).(size := t.starts[i] - t.starts[j], haveSize := true)
    ensures !(ByDistance(t) && !Empty(t, i) && LastTile(t, i) == Some(j)) ==> RowAfter(t, j, i + 1) == RowAfter(t, j, i)
  {
    NextTileGrows(t, j + 1, i);
    assert TileOk(t, i);
    hide TileOk;
  }

  /** Where sizes are distances, only the tile before counts. */
  lemma OkByPrevious(t: Tiles, i: nat)
    requires WellFormed(t) && i < |t.starts| && TilesOk(t, i)
    ensures TileOk(t, i) <==>
              Empty(t, i)
              || (&& t.starts[i] <= t.dataSize && (t.sized ==> t.sizes[i] <= t.dataSize - t.starts[i])
                  && (ByDistance(t) && LastTile(t, i).Some? ==> t.starts[LastTile(t, i).value] < t.starts[i]))
  {
    var last := LastTile(t, i);
    if last.Some? && ByDistance(t) {
      assert TileOk(t, last.value);
    }
  }

  function EmptyCount(t: Tiles, n: nat): nat
    requires n <= |t.starts|
  {
    if n == 0 then 0 else EmptyCount(t, n - 1) + if Empty(t, n - 1) then 1 else 0
  }

  // ----- validation --------------------------------------------------------------------------------------------

  /** What the validation accepts. */
  ghost predicate Acceptable(env: Env, location: Location, info: TableInfo, count: nat) {
    && !info.external && location.constructionMethod == 0 && count <= 0x4_0000 && ItemBytes(env).Some?
    && TableFits(ItemBytes(env).value, info, count) && TilesOk(TilesOf(ItemBytes(env).value, info, count), count)
  }

  lemma PlainItemOpens(env: Env, location: Location)
    requires LookupLocation(env.props.locations, env.root) == Some(location) && location.constructionMethod == 0
    ensures Openable(env) <==> ItemBytes(env).Some?
    ensures ItemBytes(env).Some? ==> forall k :: 0 <= k < |ItemBytes(env).value| ==> Readable(env, k)
  {
    if ItemBytes(env).Some? {
      PlainExtentsCost(env, location, |location.extents|, MAX_RESOLVE_PATH);
      forall k | 0 <= k < |ItemBytes(env).value| ensures Readable(env, k) {
        PlainItemReadable(env, location, k);
      }
    }
  }

  lemma PlainItemReadable(env: Env, location: Location, k: nat)
    requires LookupLocation(env.props.locations, env.root) == Some(location) && location.constructionMethod == 0
    requires ItemBytes(env).Some? && k < |ItemBytes(env).value|
    ensures Readable(env, k)
  {
    assert UsableLocation(env, env.root) == Some(location);
    hide Flatten;
    hide Readable;
    PlainItemsReadable(env, k);
  }

  class TileState {
    const rows: array<Row>
    var storedRowCount: nat
    var emptyTileCount: nat
    var logicalItemDataSize: U64
    var validationTruncated: bool
    var tileOffsetsValid: bool
    var tileSizesValidated: bool

    constructor ()
      ensures fresh(rows) && rows.Length == MAX_OFFSET_ROWS && storedRowCount == 0 && emptyTileCount == 0
    {
      rows := new Row[MAX_OFFSET_ROWS](_ => NO_ROW);
      storedRowCount, emptyTileCount, logicalItemDataSize := 0, 0, 0;
      validationTruncated, tileOffsetsValid, tileSizesValidated := false, false, false;
    }

    /** The rows after `n` valid tiles. */
    ghost predicate RowsAre(t: Tiles, n: nat)
      requires WellFormed(t) && n <= |t.starts| <= U64_MAX
      reads this, rows
    {
      && TilesOk(t, n) && rows.Length == MAX_OFFSET_ROWS && storedRowCount == Min(n, MAX_OFFSET_ROWS)
      && emptyTileCount == EmptyCount(t, n)
      && forall j :: 0 <= j < storedRowCount ==> rows[j] == RowAfter(t, j, n)
    }

    /** What is remembered of the tile before: its offset, and its row if that is kept. */
    ghost predicate Remembered(t: Tiles, n: nat, previous: Option<U64>, previousRow: Option<nat>)
      requires n <= |t.starts|
    {
      var last := if ByDistance(t) then LastTile(t, n) else None;
      && previous == (if last.Some? then Some(t.starts[last.value]) else None)
      && previousRow == (if last.Some? && last.value < MAX_OFFSET_ROWS then last else None)
    }

    /** What is remembered is an offset in the data and a row of the buffer, even after an invalid tile. */
    predicate InRange(previous: Option<U64>, previousRow: Option<nat>, dataSize: U64)
      reads this
    {
      (previous.Some? ==> previous.value <= dataSize) && (previousRow.Some? ==> previousRow.value < rows.Length)
    }

    /** Gives the tile before, if its row is kept, the distance to this one. */
    method SizePrevious(start: U64, previous: Option<U64>, previousRow: Option<nat>)
      requires previousRow.Some? ==> previousRow.value < rows.Length
      modifies rows
      ensures forall j :: 0 <= j < rows.Length ==>
                rows[j] == if previous.Some? && previousRow == Some(j) then Resized(old(rows[j]), previous.value, start)
                    else old(rows[j])
    {
      if previous.Some? && previousRow.Some? {
        var k := previousRow.value;
        if start > previous.value {
          rows[k] := rows[k].(size := start - previous.value, haveSize := true);
        }
      }
    }

    /** Keeps a row if there is room; returns where. */
    method StoreRow(row: Row) returns (kept: Option<nat>)
      requires storedRowCount <= rows.Length
      modifies this`storedRowCount, rows
      ensures kept == if old(storedRowCount) < rows.Length then Some(old(storedRowCount)) else None
      ensures storedRowCount == if kept.Some? then old(storedRowCount) + 1 else old(storedRowCount)
      ensures forall j :: 0 <= j < rows.Length ==> rows[j] == if kept == Some(j) then row else old(rows[j])
    {
      if storedRowCount < rows.Length {
        rows[storedRowCount] := row;
        kept := Some(storedRowCount);
        storedRowCount := storedRowCount + 1;
      } else {
        kept := None;
      }
    }

    /** Checks tile `i` against the data and against the tile before it, and keeps its row if there is room. */
    method TakeRow(i: nat, start: U64, size: U64, sized: bool, sequential: bool, dataSize: U64,
                   previous: Option<U64>, previousRow: Option<nat>, ghost t: Tiles)
      returns (valid: bool, newPrevious: Option<U64>, newRow: Option<nat>)
      requires WellFormed(t) && i < |t.starts| <= U64_MAX && start == t.starts[i] && size == t.sizes[i]
      requires sized == t.sized && sequential == t.sequential && dataSize == t.dataSize
      requires storedRowCount <= rows.Length == MAX_OFFSET_ROWS && InRange(previous, previousRow, dataSize)
      requires TilesOk(t, i) ==> RowsAre(t, i) && Remembered(t, i, previous, previousRow)
      modifies this, rows
      ensures storedRowCount <= rows.Length && InRange(newPrevious, newRow, dataSize)
      ensures TilesOk(t, i) ==> (valid <==> TileOk(t, i))
      ensures TilesOk(t, i + 1) ==> RowsAre(t, i + 1) && Remembered(t, i + 1, newPrevious, newRow)
    {
      hide RowAfter;
      if TilesOk(t, i) {
        OkByPrevious(t, i);
      }
      assert TilesOk(t, i + 1) <==> TilesOk(t, i) && TileOk(t, i);
      hide TileOk;
      hide TilesOk;
      ghost var was := rows[..];
      valid, newPrevious, newRow := true, previous, previousRow;
      var empty := start == EMPTY_TILE;
      if empty {
        emptyTileCount := emptyTileCount + 1;
      } else if start > dataSize {
        valid := false;
      } else if sized {
        valid := size <= dataSize - start;
      } else if sequential {
        valid := previous.None? || start > previous.value;
        SizePrevious(start, previous, previousRow);
        newPrevious := Some(start);
      }
      ghost var sizedRows := rows[..];
      var kept := StoreRow(Row(i, start, if sized then size else 0, sized, empty));
      if !sized && sequential && !empty && start <= dataSize {
        newRow := kept;
      }
      if TilesOk(t, i + 1) {
        KeepRows(t, i, was, sizedRows, rows[..]);
      }
    }

    /** Reads all records; a tile that is not valid spoils the table, but the reading goes on. */
    method ReadRows(cursor: ItemDataCursor, info: TableInfo, count: U64, ghost t: Tiles)
      returns (ok: bool, offsetsValid: bool, previous: Option<U64>, previousRow: Option<nat>)
      requires cursor.Valid() && info.offsetBytes <= 8 && info.sizeBytes <= 8 && count <= U64_MAX
      requires TableFits(ItemBytes(cursor.env).value, info, count)
               && t == TilesOf(ItemBytes(cursor.env).value, info, count)
      requires forall k :: 0 <= k < |ItemBytes(cursor.env).value| ==> Readable(cursor.env, k)
      requires cursor.logicalOffset == info.tableStart
      requires rows.Length == MAX_OFFSET_ROWS && storedRowCount == 0 && emptyTileCount == 0
      modifies this, rows, cursor
      ensures ok && cursor.Valid() && (offsetsValid <==> TilesOk(t, count))
              && cursor.logicalOffset == info.tableStart + info.tableSize
      ensures InRange(previous, previousRow, cursor.logicalSize)
      ensures offsetsValid ==> RowsAre(t, count) && Remembered(t, count, previous, previousRow)
    {
      ghost var data := ItemBytes(cursor.env).value;
      hide Readable;
      hide Flatten;
      hide TileOk;
      hide RowAfter;
      offsetsValid, previous, previousRow := true, None, None;
      assert RowsAre(t, 0) && Remembered(t, 0, previous, previousRow);
      hide RowsAre;
      hide Remembered;
      var i: nat := 0;
      while i < count
        invariant i <= count && cursor.Valid() && cursor.logicalOffset == RecordAt(info, i)
        invariant storedRowCount <= rows.Length && InRange(previous, previousRow, cursor.logicalSize)
        invariant offsetsValid <==> TilesOk(t, i)
        invariant offsetsValid ==> RowsAre(t, i) && Remembered(t, i, previous, previousRow)
      {
        var start, size;
        ok, start, size := ReadRecord(cursor, info, i, count);
        var valid;
        valid, previous, previousRow :=
          TakeRow(i, start, size, info.sizeBytes != 0, info.sequential, cursor.logicalSize, previous, previousRow, t);
        assert TilesOk(t, i + 1) <==> TilesOk(t, i) && TileOk(t, i);
        offsetsValid := offsetsValid && valid;
        i := i + 1;
      }
      ok := true;
    }

    /** Reads record `i`: the offset and, if there is one, the size. */
    method ReadRecord(cursor: ItemDataCursor, info: TableInfo, i: nat, ghost count: nat)
      returns (ok: bool, start: U64, size: U64)
      requires cursor.Valid() && TableFits(ItemBytes(cursor.env).value, info, count) && i < count
      requires forall k :: 0 <= k < |ItemBytes(cursor.env).value| ==> Readable(cursor.env, k)
      requires cursor.logicalOffset == RecordAt(info, i)
      modifies cursor
      ensures ok && cursor.Valid() && cursor.logicalOffset == RecordAt(info, i + 1)
              && cursor.logicalSize == old(cursor.logicalSize)
      ensures start == StartOf(ItemBytes(cursor.env).value, info, count, i)
              && size == SizeOf(ItemBytes(cursor.env).value, info, count, i)
    {
      hide Readable;
      hide Flatten;
      RecordInTable(info, i, count);
      size := 0;
      ok, start := cursor.ReadUintN(info.offsetBytes);
      if info.sizeBytes != 0 {
        ok, size := cursor.ReadUintN(info.sizeBytes);
      }
    }

    method ValidateOffsetTable(env: Env, location: Location, info: TableInfo, count: U64) returns (ok: bool)
      requires ValidEnv(env) && LookupLocation(env.props.locations, env.root) == Some(location)
      requires info.offsetBytes <= 8 && info.sizeBytes <= 8
      requires rows.Length == MAX_OFFSET_ROWS && storedRowCount == 0 && emptyTileCount == 0
      modifies this, rows
      ensures ok <==> Acceptable(env, location, info, count)
      ensures ok ==>
                var t := TilesOf(ItemBytes(env).value, info, count);
                && logicalItemDataSize == t.dataSize && tileOffsetsValid
                  && tileSizesValidated == (t.sized || t.sequential)
                && emptyTileCount == EmptyCount(t, count) && storedRowCount == Min(count, 64)
                && forall j :: 0 <= j < storedRowCount ==> rows[j] == FinalRow(t, j)
    {
      hide Openable;
      hide Readable;
      hide Flatten;
      if info.external || location.constructionMethod != 0 {
        return false;
      }
      if count * RecordBytes(info) != info.tableSize {
        return false;
      }
      if count > MAX_OFFSETS_TO_VALIDATE {
        validationTruncated := true;
        return false;
      }
      PlainItemOpens(env, location);
      var attempt := InitItemDataCursor(env);
      if attempt.None? {
        return false;
      }
      var cursor := attempt.value;
      logicalItemDataSize := cursor.logicalSize;
      if info.tableStart + info.tableSize > cursor.logicalSize {
        return false;
      }
      cursor.logicalOffset := info.tableStart;
      ok := ReadAndFinish(cursor, info, count);
    }

    /** Reads the rows; the last tile reaches to the end of the data. */
    method ReadAndFinish(cursor: ItemDataCursor, info: TableInfo, count: U64) returns (ok: bool)
      requires cursor.Valid() && info.offsetBytes <= 8 && info.sizeBytes <= 8
               && TableFits(ItemBytes(cursor.env).value, info, count)
      requires forall k :: 0 <= k < |ItemBytes(cursor.env).value| ==> Readable(cursor.env, k)
      requires cursor.logicalOffset == info.tableStart && logicalItemDataSize == cursor.logicalSize
      requires rows.Length == MAX_OFFSET_ROWS && storedRowCount == 0 && emptyTileCount == 0
      modifies this, rows, cursor
      ensures var t := TilesOf(ItemBytes(cursor.env).value, info, count);
              && (ok <==> TilesOk(t, count))
              && (ok ==>
                    && logicalItemDataSize == t.dataSize && tileOffsetsValid
                      && tileSizesValidated == (t.sized || t.sequential)
                    && emptyTileCount == EmptyCount(t, count) && storedRowCount == Min(count, MAX_OFFSET_ROWS)
                    && forall j :: 0 <= j < storedRowCount ==> rows[j] == FinalRow(t, j))
    {
      ghost var t := TilesOf(ItemBytes(cursor.env).value, info, count);
      var offsetsValid, previous, previousRow;
      ok, offsetsValid, previous, previousRow := ReadRows(cursor, info, count, t);
      if !ok {
        return false;
      }
      ghost var was := rows[..];
      if info.sizeBytes == 0 && info.sequential && previous.Some? && previousRow.Some? {
        var k := previousRow.value;
        rows[k] := rows[k].(size := cursor.logicalSize - previous.value, haveSize := true);
      }
      logicalItemDataSize := cursor.logicalSize;
      tileOffsetsValid := offsetsValid;
      tileSizesValidated := offsetsValid && (info.sizeBytes != 0 || info.sequential);
      ok := offsetsValid && cursor.logicalOffset == info.tableStart + info.tableSize;
      if ok {
        LastRow(t, was, rows[..]);
      }
    }
  }

  lemma LastRow(t: Tiles, before: seq<Row>, after: seq<Row>)
    requires WellFormed(t) && |t.starts| <= U64_MAX && TilesOk(t, |t.starts|) && |before| == |after| == MAX_OFFSET_ROWS
    requires forall j :: 0 <= j < Min(|t.starts|, MAX_OFFSET_ROWS) ==> before[j] == RowAfter(t, j, |t.starts|)
    requires forall j :: 0 <= j < Min(|t.starts|, MAX_OFFSET_ROWS) ==>
               after[j] == if ByDistance(t) && LastTile(t, |t.starts|) == Some(j) && t.starts[j] <= t.dataSize
                           then before[j].(size := t.dataSize - t.starts[j], haveSize := true) else before[j]
    ensures forall j :: 0 <= j < Min(|t.starts|, MAX_OFFSET_ROWS) ==> after[j] == FinalRow(t, j)
  {
    forall j | 0 <= j < Min(|t.starts|, MAX_OFFSET_ROWS) ensures after[j] == FinalRow(t, j) {
      assert TileOk(t, j);
    }
  }

  /** A row whose tile reaches to the next one, if that is behind it. */
  function Resized(row: Row, start: U64, next: U64): Row {
    if next > start then row.(size := next - start, haveSize := true) else row
  }

  /** The rows kept after tile `i`, from those kept before. */
  lemma KeepRows(t: Tiles, i: nat, before: seq<Row>, sizedRows: seq<Row>, after: seq<Row>)
    requires WellFormed(t) && i < |t.starts| <= U64_MAX && TilesOk(t, i + 1) && TilesOk(t, i)
    requires |before| == |sizedRows| == |after| == MAX_OFFSET_ROWS
    requires forall j :: 0 <= j < Min(i, MAX_OFFSET_ROWS) ==> before[j] == RowAfter(t, j, i)
    requires forall j :: 0 <= j < Min(i, MAX_OFFSET_ROWS) ==>
               sizedRows[j] == if ByDistance(t) && !Empty(t, i) && LastTile(t, i) == Some(j)
                               then Resized(before[j], t.starts[j], t.starts[i]) else before[j]
    requires forall j :: 0 <= j < MAX_OFFSET_ROWS ==>
               after[j] == if i == j then Row(i, t.starts[i], if t.sized then t.sizes[i] else 0, t.sized, Empty(t, i))
                   else sizedRows[j]
    ensures forall j :: 0 <= j < Min(i + 1, MAX_OFFSET_ROWS) ==> after[j] == RowAfter(t, j, i + 1)
  {
    forall j | 0 <= j < Min(i + 1, MAX_OFFSET_ROWS) ensures after[j] == RowAfter(t, j, i + 1) {
      if j < i {
        RowGrows(t, j, i);
      }
    }
  }
}
