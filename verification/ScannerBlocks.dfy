/**
 * The blocks that the scanner emits for the parts of an item, and their way through extraction: from
 * any of them, among any blocks of other streams, the bytes of the item come out.
 */
module ScannerBlocks {
  import opened Bytes
  import opened Blocks
  import opened BlockSinks
  import opened ExifPreamble
  import opened ScannerLayouts
  import opened PartSort
  import opened StreamMembers
  import PS = PayloadSpec

  /** What the blocks of an item have in common. */
  datatype ItemTag = ItemTag(format: ContainerFormat, kind: BlockKind, itemType: U32, itemId: U32)

  // ----- the blocks of an item -----------------------------------------------------------------------------

  /** The parts of an item, some of which may be skipped, lie in the file. */
  predicate PartsInFile(file: seq<Byte>, parts: seq<Option<FileRange>>) {
    && |file| <= SPAN_MAX && |parts| <= U32_MAX
    && forall i :: 0 <= i < |parts| && parts[i].Some? ==> parts[i].value.offset + parts[i].value.length <= |file|
  }

  function BareBlock(tag: ItemTag, part: FileRange): Block
    requires part.offset + part.length <= U64_MAX
  {
    NO_BLOCK.(format := tag.format, kind := tag.kind, outerOffset := part.offset, outerSize := part.length,
              dataOffset := part.offset, dataSize := part.length, id := tag.itemType, group := tag.itemId)
  }

  /** The block of a part before it is numbered; the first one of an Exif item loses its preamble. */
  function PartBlock(file: seq<Byte>, tag: ItemTag, part: FileRange, first: bool): Block
    requires |file| <= SPAN_MAX && part.offset + part.length <= |file|
  {
    if tag.kind == Exif && first then WithoutPreamble(file, BareBlock(tag, part)) else BareBlock(tag, part)
  }

  /** Where part `i` starts in the stream; an offset that would overflow stays. */
  function LogicalOffset(file: seq<Byte>, tag: ItemTag, parts: seq<Option<FileRange>>, i: nat): U64
    requires PartsInFile(file, parts) && i <= |parts|
  {
    if i == 0 then 0
    else
      var before := LogicalOffset(file, tag, parts, i - 1);
      if parts[i - 1].None? then before
      else
        var size := PartBlock(file, tag, parts[i - 1].value, i == 1).dataSize;
        if size <= U64_MAX - before then before + size else before
  }

  function NumberedBlock(b: Block, i: U32, count: U32, logicalOffset: U64): Block {
    if count > 1 then b.(partIndex := i, partCount := count, logicalOffset := logicalOffset) else b
  }

  /** The blocks of the first `n` parts. */
  function ItemBlocks(file: seq<Byte>, tag: ItemTag, parts: seq<Option<FileRange>>, n: nat): seq<Block>
    requires PartsInFile(file, parts) && n <= |parts|
  {
    if n == 0 then []
    else
      var before := ItemBlocks(file, tag, parts, n - 1);
      if parts[n - 1].None? then before
      else
        var b := PartBlock(file, tag, parts[n - 1].value, n == 1);
        before + [NumberedBlock(b, n - 1, |parts|, LogicalOffset(file, tag, parts, n - 1))]
  }

  /** Emits the block of one part, and returns where the next one starts. */
  method EmitPart(sink: BlockSink, file: seq<Byte>, tag: ItemTag, ghost parts: seq<Option<FileRange>>,
                  part: FileRange, i: U32, count: U32, logicalOffset: U64) returns (next: U64)
    requires sink.Valid() && PartsInFile(file, parts) && i < |parts| == count && parts[i] == Some(part)
    requires logicalOffset == LogicalOffset(file, tag, parts, i)
    modifies sink, sink.out
    ensures sink.Valid() && next == LogicalOffset(file, tag, parts, i + 1)
    ensures sink.Collection()
            == Emit(old(sink.Collection()), sink.out.Length,
                    NumberedBlock(PartBlock(file, tag, part, i == 0), i, count, logicalOffset))
  {
    var block := NO_BLOCK.(format := tag.format, kind := tag.kind, outerOffset := part.offset, outerSize := part.length,
                           dataOffset := part.offset, dataSize := part.length, id := tag.itemType, group := tag.itemId);
    if block.kind == Exif {
      if i == 0 {
        block := SkipBmffExifOffset(file, block);
        block := SkipExifPreamble(file, block);
      }
    }
    assert block == PartBlock(file, tag, part, i == 0);
    hide PartBlock;
    if count > 1 {
      block := block.(partIndex := i, partCount := count, logicalOffset := logicalOffset);
    }
    next := logicalOffset;
    if block.dataSize <= U64_MAX - logicalOffset {
      next := next + block.dataSize;
    }
    sink.SinkEmit(block);
  }

  /** One more block of the item. */
  lemma MoreBlocks(c: Collected, capacity: nat, file: seq<Byte>, tag: ItemTag, parts: seq<Option<FileRange>>, n: nat)
    requires PartsInFile(file, parts) && n < |parts|
    ensures EmitBlocks(c, capacity, ItemBlocks(file, tag, parts, n + 1))
            == if parts[n].None? then EmitBlocks(c, capacity, ItemBlocks(file, tag, parts, n))
               else
                 var b := PartBlock(file, tag, parts[n].value, n == 0);
                 Emit(EmitBlocks(c, capacity, ItemBlocks(file, tag, parts, n)), capacity,
                      NumberedBlock(b, n, |parts|, LogicalOffset(file, tag, parts, n)))
  {
    var all := ItemBlocks(file, tag, parts, n + 1);
    if parts[n].Some? {
      assert all[..|all| - 1] == ItemBlocks(file, tag, parts, n);
    }
    hide PartBlock;
    hide LogicalOffset;
    hide Emit;
  }

  /** All parts are there. */
  function AllParts(ranges: seq<FileRange>): (parts: seq<Option<FileRange>>)
    ensures |parts| == |ranges| && forall i :: 0 <= i < |parts| ==> parts[i] == Some(ranges[i])
  {
    seq(|ranges|, i requires 0 <= i < |ranges| => Some(ranges[i]))
  }

  /** Emits the blocks of an item built from other items, none of whose parts is empty. */
  method EmitItem(sink: BlockSink, file: seq<Byte>, tag: ItemTag, ranges: seq<FileRange>)
    requires sink.Valid() && PartsInFile(file, AllParts(ranges)) && RangesInFile(file, ranges)
    modifies sink, sink.out
    ensures sink.Valid()
    ensures sink.Collection()
            == EmitBlocks(old(sink.Collection()), sink.out.Length, ItemBlocks(file, tag, AllParts(ranges), |ranges|))
  {
    ghost var parts, was := AllParts(ranges), sink.Collection();
    var logicalOffset: U64 := 0;
    var i := 0;
    assert LogicalOffset(file, tag, parts, 0) == 0 && ItemBlocks(file, tag, parts, 0) == [];
    hide ItemBlocks;
    hide LogicalOffset;
    hide PartBlock;
    hide Emit;
    while i < |ranges|
      invariant 0 <= i <= |ranges| && sink.Valid() && logicalOffset == LogicalOffset(file, tag, parts, i)
      invariant sink.Collection() == EmitBlocks(was, sink.out.Length, ItemBlocks(file, tag, parts, i))
    {
      MoreBlocks(was, sink.out.Length, file, tag, parts, i);
      logicalOffset := EmitPart(sink, file, tag, parts, ranges[i], i, |ranges|, logicalOffset);
      i := i + 1;
    }
  }

  // ----- what the blocks carry ------------------------------------------------------------------------------

  /** The range of the file that is left of part `i` without the preamble of an Exif item. */
  function DataRange(file: seq<Byte>, tag: ItemTag, ranges: seq<FileRange>, i: nat): (r: FileRange)
    requires i < |ranges| && ranges[i].offset + ranges[i].length <= |file|
    ensures r.offset + r.length <= |file| && (ranges[i].length > 0 ==> r.length > 0)
  {
    if tag.kind == Exif && i == 0 then
      var skip := ExifSkip(RangeSlice(file, ranges[0]));
      FileRange(ranges[0].offset + skip, ranges[0].length - skip)
    else ranges[i]
  }

  function DataRanges(file: seq<Byte>, tag: ItemTag, ranges: seq<FileRange>): (r: seq<FileRange>)
    requires forall i :: 0 <= i < |ranges| ==> ranges[i].offset + ranges[i].length <= |file|
    ensures |r| == |ranges| && forall i :: 0 <= i < |r| ==> r[i] == DataRange(file, tag, ranges, i)
  {
    seq(|ranges|, i requires 0 <= i < |ranges| => DataRange(file, tag, ranges, i))
  }

  /** What is handed over of an item: all its bytes, or those of an Exif item after the preamble. */
  ghost function PayloadBytes(tag: ItemTag, bytes: seq<Byte>, firstSize: nat): (r: seq<Byte>)
    requires firstSize <= |bytes|
    ensures |r| <= |bytes|
  {
    if tag.kind == Exif then bytes[ExifSkip(bytes[..firstSize])..] else bytes
  }

  lemma DataInFile(file: seq<Byte>, tag: ItemTag, ranges: seq<FileRange>)
    requires RangesInFile(file, ranges)
    ensures RangesInFile(file, DataRanges(file, tag, ranges))
  {
    hide DataRange;
  }

  /** The data ranges hold the payload. */
  lemma DataIsPayload(file: seq<Byte>, tag: ItemTag, ranges: seq<FileRange>)
    requires RangesInFile(file, ranges) && ranges != []
    ensures RangesInFile(file, DataRanges(file, tag, ranges))
    ensures ranges[0].length <= |RangeBytes(file, ranges)|
    ensures RangeBytes(file, DataRanges(file, tag, ranges))
            == PayloadBytes(tag, RangeBytes(file, ranges), ranges[0].length)
  {
    DataInFile(file, tag, ranges);
    var data := DataRanges(file, tag, ranges);
    FirstRange(file, ranges);
    FirstRange(file, data);
    assert data[1..] == ranges[1..];
    FirstIsTrimmed(file, tag, ranges);
    hide *;
    var first, rest := RangeSlice(file, ranges[0]), RangeBytes(file, ranges[1..]);
    TrimmedJoin(tag, first, rest);
  }

  lemma FirstIsTrimmed(file: seq<Byte>, tag: ItemTag, ranges: seq<FileRange>)
    requires ranges != [] && ranges[0].offset + ranges[0].length <= |file|
    ensures var first := RangeSlice(file, ranges[0]);
            RangeSlice(file, DataRange(file, tag, ranges, 0)) == if tag.kind == Exif then first[ExifSkip(first)..]
                else first
  {
    hide ExifSkip;
  }

  lemma TrimmedJoin(tag: ItemTag, first: seq<Byte>, rest: seq<Byte>)
    ensures PayloadBytes(tag, first + rest, |first|)
            == (if tag.kind == Exif then first[ExifSkip(first)..] else first) + rest
  {
    hide ExifSkip;
    assert (first + rest)[..|first|] == first;
    var skip := ExifSkip(first);
    assert (first + rest)[skip..] == first[skip..] + rest;
  }

  lemma FirstRange(file: seq<Byte>, ranges: seq<FileRange>)
    requires RangesInFile(file, ranges) && ranges != []
    ensures RangesInFile(file, ranges[1..])
            && RangeBytes(file, ranges) == RangeSlice(file, ranges[0]) + RangeBytes(file, ranges[1..])
  {
    assert ranges == [ranges[0]] + ranges[1..];
    RangeBytesJoin(file, [ranges[0]], ranges[1..]);
    OneMoreRange(file, [], ranges[0]);
    assert [] + [ranges[0]] == [ranges[0]];
    assert RangeBytes(file, []) == [];
    hide RangeSlice;
  }

  /** Where data range `i` starts in the stream; an offset that would overflow stays. */
  function DataOffset(data: seq<FileRange>, i: nat): U64
    requires i <= |data|
  {
    if i == 0 then 0
    else
      var before := DataOffset(data, i - 1);
      if data[i - 1].length <= U64_MAX - before then before + data[i - 1].length else before
  }

  /** The block carries data range `i` of an item with these ranges. */
  ghost predicate CarriesRange(b: Block, tag: ItemTag, data: seq<FileRange>, i: nat)
    requires i < |data|
  {
    && b.format == tag.format && b.kind == tag.kind && b.id == tag.itemType && b.group == tag.itemId
    && b.dataOffset == data[i].offset && b.dataSize == data[i].length
    && b.logicalSize == 0 && b.compression == Uncompressed
      && (b.chunking == Raw || b.chunking == BmffExifTiffOffsetU32Be)
    && if |data| > 1 then b.partIndex == i && b.partCount == |data|
      && b.logicalOffset == DataOffset(data, i) else b.partCount == 0
  }

  lemma PartCarries(file: seq<Byte>, tag: ItemTag, ranges: seq<FileRange>, i: nat)
    requires PartsInFile(file, AllParts(ranges)) && RangesInFile(file, ranges) && i < |ranges|
    ensures var b := PartBlock(file, tag, ranges[i], i == 0);
            var r := DataRange(file, tag, ranges, i);
            && b.dataOffset == r.offset && b.dataSize == r.length && b.format == tag.format && b.kind == tag.kind
            && b.id == tag.itemType && b.group == tag.itemId && b.logicalSize == 0 && b.compression == Uncompressed
            && (b.chunking == Raw || b.chunking == BmffExifTiffOffsetU32Be) && b.partCount == 0
              && b.outerSize == ranges[i].length
  {
    var bare := BareBlock(tag, ranges[i]);
    PreambleRange(file, bare);
    assert BlockBytes(file, bare) == RangeSlice(file, ranges[i]);
  }

  lemma {:induction false} OffsetsAgree(file: seq<Byte>, tag: ItemTag, ranges: seq<FileRange>, i: nat)
    requires PartsInFile(file, AllParts(ranges)) && RangesInFile(file, ranges) && i <= |ranges|
    ensures LogicalOffset(file, tag, AllParts(ranges), i) == DataOffset(DataRanges(file, tag, ranges), i)
  {
    if i > 0 {
      OffsetsAgree(file, tag, ranges, i - 1);
      PartCarries(file, tag, ranges, i - 1);
      hide PartBlock;
      hide DataRange;
    }
  }

  lemma BlockCarries(file: seq<Byte>, tag: ItemTag, ranges: seq<FileRange>, i: nat)
    requires PartsInFile(file, AllParts(ranges)) && RangesInFile(file, ranges) && i < |ranges|
    ensures var b := NumberedBlock(PartBlock(file, tag, ranges[i], i == 0), i, |ranges|,
                                   LogicalOffset(file, tag, AllParts(ranges), i));
            CarriesRange(b, tag, DataRanges(file, tag, ranges), i) && b.outerSize == ranges[i].length
  {
    PartCarries(file, tag, ranges, i);
    OffsetsAgree(file, tag, ranges, i);
    hide PartBlock;
    hide DataRange;
    hide LogicalOffset;
    hide DataOffset;
  }

  /** The blocks carry the first data ranges, in order, each with the outer size of its part. */
  ghost predicate CarryInOrder(blocks: seq<Block>, tag: ItemTag, data: seq<FileRange>, ranges: seq<FileRange>) {
    && |blocks| <= |data| == |ranges|
    && forall i :: 0 <= i < |blocks| ==>
      CarriesRange(blocks[i], tag, data, i) && blocks[i].outerSize == ranges[i].length
  }

  lemma CarryMore(blocks: seq<Block>, b: Block, tag: ItemTag, data: seq<FileRange>, ranges: seq<FileRange>)
    requires CarryInOrder(blocks, tag, data, ranges) && |blocks| < |data|
    requires CarriesRange(b, tag, data, |blocks|) && b.outerSize == ranges[|blocks|].length
    ensures CarryInOrder(blocks + [b], tag, data, ranges)
  {
    hide CarriesRange;
  }

  /** The blocks of an item all of whose parts are there carry its data ranges, in order. */
  lemma {:induction false} BlocksCarry(file: seq<Byte>, tag: ItemTag, ranges: seq<FileRange>, n: nat)
    requires PartsInFile(file, AllParts(ranges)) && RangesInFile(file, ranges) && n <= |ranges|
    ensures var blocks := ItemBlocks(file, tag, AllParts(ranges), n);
            |blocks| == n && CarryInOrder(blocks, tag, DataRanges(file, tag, ranges), ranges)
  {
    if n > 0 {
      var parts, i := AllParts(ranges), n - 1;
      var before, b := ItemBlocks(file, tag, parts, i),
          NumberedBlock(PartBlock(file, tag, ranges[i], i == 0), i, |ranges|, LogicalOffset(file, tag, parts, i));
      assert ItemBlocks(file, tag, parts, n) == before + [b];
      BlocksCarry(file, tag, ranges, i);
      BlockCarries(file, tag, ranges, i);
      hide *;
      CarryMore(before, b, tag, DataRanges(file, tag, ranges), ranges);
    }
  }

  // ----- the stream of an item -----------------------------------------------------------------------------

  ghost predicate KeysOrdered(order: seq<U32>, keys: seq<nat>) {
    && |keys| <= U32_MAX && (forall i :: 0 <= i < |order| ==> order[i] < |keys|)
    && forall i, j :: 0 <= i < j < |order| ==> keys[order[i]] <= keys[order[j]]
  }

  /** What is in order stays in order. */
  lemma {:induction false} SortedStays(order: seq<U32>, keys: seq<nat>)
    requires KeysOrdered(order, keys)
    ensures SortByKey(order, keys) == order
  {
    if order != [] {
      var init := order[..|order| - 1];
      SortedStays(init, keys);
      assert order == init + [order[|order| - 1]];
    }
  }

  /** The ranges lie in the file, and their total size can be counted. */
  ghost predicate Countable(file: seq<Byte>, data: seq<FileRange>) {
    RangesInFile(file, data) && |RangeBytes(file, data)| <= U64_MAX && |file| <= SPAN_MAX && |data| <= U32_MAX
  }

  /**
   * Among the blocks, those numbered by `order` carry the ranges of one item, and if there are several,
   * no other block belongs to their stream.
   */
  ghost predicate HoldsItem(blocks: seq<Block>, tag: ItemTag, data: seq<FileRange>, order: seq<U32>) {
    && |order| == |data| && |blocks| <= U32_MAX && Increasing(order)
    && (forall i :: 0 <= i < |order| ==> order[i] < |blocks| && CarriesRange(blocks[order[i]], tag, data, i))
    && (|data| > 1 ==>
          forall i, j: U32 ::
            0 <= i < |order| && j < |blocks| && PS.SameStream(blocks[order[i]], blocks[j]) ==> j in order)
  }

  lemma PrefixCountable(file: seq<Byte>, data: seq<FileRange>, n: nat)
    requires Countable(file, data) && n <= |data|
    ensures RangesInFile(file, data[..n]) && RangeBytes(file, data[..n]) <= RangeBytes(file, data)
  {
    assert data == data[..n] + data[n..];
    RangeBytesJoin(file, data[..n], data[n..]);
  }

  lemma RangeStep(file: seq<Byte>, data: seq<FileRange>, n: nat)
    requires Countable(file, data) && n < |data|
    ensures RangesInFile(file, data[..n]) && RangesInFile(file, data[..n + 1])
            && data[n].offset + data[n].length <= |file|
    ensures RangeBytes(file, data[..n + 1]) == RangeBytes(file, data[..n]) + RangeSlice(file, data[n])
    ensures |RangeBytes(file, data[..n + 1])| <= |RangeBytes(file, data)| <= U64_MAX
  {
    PrefixCountable(file, data, n);
    PrefixCountable(file, data, n + 1);
    assert data[..n + 1] == data[..n] + [data[n]];
    OneMoreRange(file, data[..n], data[n]);
  }

  /** Where a range starts is the size of what is before it. */
  lemma {:induction false} OffsetIsSize(file: seq<Byte>, data: seq<FileRange>, n: nat)
    requires Countable(file, data) && n <= |data|
    ensures RangesInFile(file, data[..n]) && DataOffset(data, n) == |RangeBytes(file, data[..n])|
  {
    if n == 0 {
      assert RangeBytes(file, data[..0]) == [];
    } else {
      OffsetIsSize(file, data, n - 1);
      RangeStep(file, data, n - 1);
      hide RangeBytes;
      hide RangesInFile;
      hide RangeSlice;
    }
  }

  /** Range `i` ends where the next one starts, within the stream. */
  lemma RangesAdjoin(file: seq<Byte>, data: seq<FileRange>, i: nat)
    requires Countable(file, data) && i < |data|
    ensures DataOffset(data, i + 1) == DataOffset(data, i) + data[i].length <= |RangeBytes(file, data)|
  {
    OffsetIsSize(file, data, i);
    OffsetIsSize(file, data, i + 1);
    RangeStep(file, data, i);
    hide RangeBytes;
    hide RangesInFile;
    hide RangeSlice;
    hide DataOffset;
  }

  /** The sizes of the first `n` blocks of `order` add up to `end`, and no stream size is declared. */
  ghost predicate TiledTo(blocks: seq<Block>, order: seq<U32>, n: nat, end: U64) {
    && n <= |order| && PS.ValidParts(order, blocks)
    && PS.TotalSize(blocks, order, n) == end && PS.FurthestEnd(blocks, order, n) == Some(end)
      && PS.DeclaredSize(blocks, order, n) == 0
  }

  lemma TileOn(blocks: seq<Block>, order: seq<U32>, n: nat, start: U64, end: U64)
    requires n < |order| && TiledTo(blocks, order, n, start)
    requires var b := blocks[order[n]]; b.logicalOffset == start && b.logicalSize == 0 && start + b.dataSize == end
    ensures TiledTo(blocks, order, n + 1, end)
  {
  }

  /** The blocks, in order, tile the stream. */
  lemma {:induction false} BlocksTile(file: seq<Byte>, blocks: seq<Block>, tag: ItemTag, data: seq<FileRange>,
                                      order: seq<U32>, n: nat)
    requires Countable(file, data) && HoldsItem(blocks, tag, data, order) && n <= |data| && |data| > 1
    ensures TiledTo(blocks, order, n, DataOffset(data, n))
  {
    if n > 0 {
      BlocksTile(file, blocks, tag, data, order, n - 1);
      RangesAdjoin(file, data, n - 1);
      assert CarriesRange(blocks[order[n - 1]], tag, data, n - 1);
      var start, end := DataOffset(data, n - 1), DataOffset(data, n);
      hide TiledTo;
      hide Countable;
      hide HoldsItem;
      hide DataOffset;
      TileOn(blocks, order, n - 1, start, end);
    }
  }

  /** Block `i` of the item continues the stream. */
  lemma BlockContinues(file: seq<Byte>, blocks: seq<Block>, tag: ItemTag, data: seq<FileRange>, order: seq<U32>, i: nat)
    requires Countable(file, data) && HoldsItem(blocks, tag, data, order) && i < |data| && |data| > 1
    ensures PS.ValidParts(order, blocks) && PS.Continues(file, blocks, order, i, |RangeBytes(file, data)|)
    ensures data[i].offset + data[i].length <= |file| && BlockBytes(file, blocks[order[i]]) == RangeSlice(file, data[i])
  {
    BlocksTile(file, blocks, tag, data, order, i);
    RangesAdjoin(file, data, i);
    assert CarriesRange(blocks[order[i]], tag, data, i);
    RangeStep(file, data, i);
    hide DataOffset;
    hide RangeBytes;
    hide PS.TotalSize;
    hide PS.FurthestEnd;
    hide PS.DeclaredSize;
    hide HoldsItem;
  }

  /** Each block continues the stream where the one before it ends. */
  lemma {:induction false} BlocksContinue(file: seq<Byte>, blocks: seq<Block>, tag: ItemTag, data: seq<FileRange>,
                                          order: seq<U32>, n: nat)
    requires Countable(file, data) && HoldsItem(blocks, tag, data, order) && n <= |data| && |data| > 1
    ensures PS.ValidParts(order, blocks) && PS.Contiguous(file, blocks, order, n, |RangeBytes(file, data)|) == n
    ensures RangesInFile(file, data[..n]) && PS.Joined(file, blocks, order, n) == RangeBytes(file, data[..n])
  {
    assert RangesInFile(file, data[..0]) && RangeBytes(file, data[..0]) == [];
    assert PS.ValidParts(order, blocks);
    if n > 0 {
      BlocksContinue(file, blocks, tag, data, order, n - 1);
      BlockContinues(file, blocks, tag, data, order, n - 1);
      RangeStep(file, data, n - 1);
      hide RangeBytes;
      hide RangesInFile;
      hide RangeSlice;
      hide Countable;
      hide HoldsItem;
      hide PS.Continues;
    }
  }

  /** Both orders of the members, by number and by offset, are the order of the item. */
  lemma BlocksInOrder(file: seq<Byte>, blocks: seq<Block>, tag: ItemTag, data: seq<FileRange>, order: seq<U32>)
    requires Countable(file, data) && HoldsItem(blocks, tag, data, order) && |data| > 1
    ensures SortByKey(order, PS.PartKeys(blocks)) == order && SortByKey(order, PS.OffsetKeys(blocks)) == order
    ensures PS.ValidParts(order, blocks) && PS.AnyOffsets(blocks, order)
  {
    KeysAreOrdered(blocks, tag, data, order);
    SecondHasOffset(blocks, tag, data, order);
    hide *;
    SortedStays(order, PS.PartKeys(blocks));
    SortedStays(order, PS.OffsetKeys(blocks));
  }

  lemma KeysAreOrdered(blocks: seq<Block>, tag: ItemTag, data: seq<FileRange>, order: seq<U32>)
    requires HoldsItem(blocks, tag, data, order) && |data| > 1
    ensures KeysOrdered(order, PS.PartKeys(blocks)) && KeysOrdered(order, PS.OffsetKeys(blocks))
  {
    assert forall i :: 0 <= i < |order| ==> order[i] < |blocks|;
    assert |blocks| <= U32_MAX;
    hide HoldsItem;
    forall i, j | 0 <= i < j < |order|
      ensures blocks[order[i]].partIndex <= blocks[order[j]].partIndex
              && blocks[order[i]].logicalOffset <= blocks[order[j]].logicalOffset
    {
      KeysInOrder(blocks, tag, data, order, i, j);
    }
  }

  lemma KeysInOrder(blocks: seq<Block>, tag: ItemTag, data: seq<FileRange>, order: seq<U32>, i: nat, j: nat)
    requires HoldsItem(blocks, tag, data, order) && |data| > 1 && i < j < |order|
    ensures blocks[order[i]].partIndex <= blocks[order[j]].partIndex
            && blocks[order[i]].logicalOffset <= blocks[order[j]].logicalOffset
  {
    assert CarriesRange(blocks[order[i]], tag, data, i) && CarriesRange(blocks[order[j]], tag, data, j);
    OffsetsGrow(data, i, j);
  }

  lemma SecondHasOffset(blocks: seq<Block>, tag: ItemTag, data: seq<FileRange>, order: seq<U32>)
    requires HoldsItem(blocks, tag, data, order) && |data| > 1 && data[0].length > 0
    ensures PS.ValidParts(order, blocks) && PS.AnyOffsets(blocks, order)
  {
    assert CarriesRange(blocks[order[1]], tag, data, 1) && CarriesRange(blocks[order[0]], tag, data, 0);
    assert DataOffset(data, 1) == data[0].length;
    assert blocks[order[1]].logicalOffset != 0;
  }

  lemma {:induction false} OffsetsGrow(data: seq<FileRange>, i: nat, j: nat)
    requires i <= j <= |data|
    ensures DataOffset(data, i) <= DataOffset(data, j)
  {
    if i < j {
      OffsetsGrow(data, i, j - 1);
    }
  }

  lemma StreamOfItem(file: seq<Byte>, blocks: seq<Block>, tag: ItemTag, data: seq<FileRange>, order: seq<U32>,
                     options: PS.PayloadOptions)
    requires Countable(file, data) && HoldsItem(blocks, tag, data, order) && |data| > 1
             && !PS.OverLimit(|RangeBytes(file, data)|, options)
    ensures PS.ValidParts(order, blocks)
            && PS.OffsetStream(file, blocks, order, options) == PS.Stream(RangeBytes(file, data))
  {
    var n, size := |data|, |RangeBytes(file, data)|;
    BlocksTile(file, blocks, tag, data, order, n);
    OffsetIsSize(file, data, n);
    BlocksContinue(file, blocks, tag, data, order, n);
    assert data[..n] == data;
    RangesAdjoin(file, data, 0);
    assert size > 0;
    hide RangeBytes;
    hide RangesInFile;
    hide HoldsItem;
    hide PS.FurthestEnd;
    hide PS.DeclaredSize;
    hide PS.Contiguous;
    hide PS.Joined;
  }

  lemma OneRangeExtracts(file: seq<Byte>, blocks: seq<Block>, tag: ItemTag, data: seq<FileRange>, order: seq<U32>,
                         scratch: nat,
                         options: PS.PayloadOptions)
    requires Countable(file, data) && HoldsItem(blocks, tag, data, order) && |data| == 1
             && !PS.OverLimit(|RangeBytes(file, data)|, options)
    ensures PS.Extraction(file, blocks, order[0], scratch, options) == PS.Stream(RangeBytes(file, data))
  {
    RangeStep(file, data, 0);
    assert data[..1] == data && data[..0] == [];
    assert RangeBytes(file, []) == [];
    var b := blocks[order[0]];
    assert CarriesRange(b, tag, data, 0);
    assert BlockBytes(file, b) == RangeSlice(file, data[0]);
    hide HoldsItem;
    hide RangeBytes;
  }

  /** A seed with offsets and known members. */
  lemma OffsetSeedExtracts(file: seq<Byte>, blocks: seq<Block>, k: nat, order: seq<U32>, scratch: nat,
                           options: PS.PayloadOptions)
    requires |file| <= SPAN_MAX && k < |blocks| <= U32_MAX && blocks[k].partCount > 1
    requires blocks[k].chunking == Raw || blocks[k].chunking == BmffExifTiffOffsetU32Be
    requires PS.Members(blocks[k], blocks, |blocks|) == order && 0 < |order| <= Min(options.maxParts, scratch)
    requires SortByKey(order, PS.PartKeys(blocks)) == order && SortByKey(order, PS.OffsetKeys(blocks)) == order
    requires PS.AnyOffsets(blocks, order)
    ensures PS.Extraction(file, blocks, k, scratch, options) == PS.OffsetStream(file, blocks, order, options)
  {
    hide PS.OffsetStream;
    hide PS.IndexStream;
    hide PS.XmpStream;
    hide PS.Members;
    hide SortByKey;
    hide PS.AnyOffsets;
  }

  /** The stream of any block of the item is the item. */
  lemma ItemIsStream(blocks: seq<Block>, tag: ItemTag, data: seq<FileRange>, order: seq<U32>, k: nat)
    requires HoldsItem(blocks, tag, data, order) && |data| > 1 && k < |order|
    ensures PS.Members(blocks[order[k]], blocks, |blocks|) == order
  {
    var seed := blocks[order[k]];
    assert CarriesRange(seed, tag, data, k);
    forall j: U32 | j < |blocks| ensures PS.SameStream(seed, blocks[j]) <==> j in order {
      if j in order {
        var i :| 0 <= i < |order| && order[i] == j;
        assert CarriesRange(blocks[order[i]], tag, data, i);
      }
    }
    hide PS.SameStream;
    MembersAreOrder(seed, blocks, order);
  }

  /** From any block of an item, among any blocks of other streams, the bytes of its ranges are extracted. */
  lemma ItemExtracts(file: seq<Byte>, blocks: seq<Block>, tag: ItemTag, data: seq<FileRange>, order: seq<U32>, k: nat,
                     scratch: nat,
                     options: PS.PayloadOptions)
    requires Countable(file, data) && HoldsItem(blocks, tag, data, order)
             && k < |order| <= Min(options.maxParts, scratch)
    requires !PS.OverLimit(|RangeBytes(file, data)|, options)
    ensures PS.Extraction(file, blocks, order[k], scratch, options) == PS.Stream(RangeBytes(file, data))
  {
    hide RangeBytes;
    hide PS.Extraction;
    if |data| == 1 {
      OneRangeExtracts(file, blocks, tag, data, order, scratch, options);
    } else {
      ItemIsStream(blocks, tag, data, order, k);
      BlocksInOrder(file, blocks, tag, data, order);
      StreamOfItem(file, blocks, tag, data, order, options);
      assert CarriesRange(blocks[order[k]], tag, data, k);
      OffsetSeedExtracts(file, blocks, order[k], order, scratch, options);
    }
  }
}
