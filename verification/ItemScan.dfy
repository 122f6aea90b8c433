/**
 * The scan of all items of a BMFF file: tables are collected once, then every entry of the location
 * table emits its blocks. From any block of an item, extraction returns the bytes that the recursive
 * resolver gives the item.
 */
module ItemScan {
  import opened Bytes
  import opened Blocks
  import opened BlockSinks
  import opened ItemData
  import opened ScannerLayouts
  import opened ScannerItems
  import opened ScannerParts
  import opened ScannerAgreement
  import opened ScannerBlocks
  import PS = PayloadSpec

  /** An item of interest, as the item information box describes it. */
  datatype MetaItem = MetaItem(itemId: U32, itemType: U32, kind: BlockKind)

  function FindItem(metas: seq<MetaItem>, id: U32): (r: Option<MetaItem>)
    ensures r.Some? ==> r.value.itemId == id && r.value in metas
    ensures r.None? ==> forall m :: m in metas ==> m.itemId != id
  {
    if metas == [] then None else if metas[0].itemId == id then Some(metas[0]) else FindItem(metas[1..], id)
  }

  function MetaIds(metas: seq<MetaItem>): (ids: seq<U32>)
    ensures |ids| == |metas| && forall i :: 0 <= i < |ids| ==> ids[i] == metas[i].itemId
  {
    seq(|metas|, i requires 0 <= i < |metas| => metas[i].itemId)
  }

  function TagOf(format: ContainerFormat, item: MetaItem): (tag: ItemTag)
    ensures tag.itemId == item.itemId
  {
    ItemTag(format, item.kind, item.itemType, item.itemId)
  }

  // ----- what an entry emits ---------------------------------------------------------------------------------

  /** The scan of one file: what it reads and the tables it has collected. */
  datatype ScanInput = ScanInput(src: Source, tables: Tables, metas: seq<MetaItem>, format: ContainerFormat)

  ghost predicate ValidInput(s: ScanInput, entry: Entry) {
    SoundTables(s.src, s.tables) && |entry.extents| <= U32_MAX
  }

  /** The range of extent `e` of an item that does not refer to others, if it lies where it must. */
  function PlainPart(src: Source, entry: Entry, e: nat): Option<FileRange>
    requires e < |entry.extents|
  {
    match BaseInFile(src, entry) case None => None case Some(base) => LocateInFile(src, entry, base, e)
  }

  function PlainParts(src: Source, entry: Entry): (r: seq<Option<FileRange>>)
    ensures |r| == |entry.extents| && forall e :: 0 <= e < |r| ==> r[e] == PlainPart(src, entry, e)
  {
    seq(|entry.extents|, e requires 0 <= e < |entry.extents| => PlainPart(src, entry, e))
  }

  /** The parts that an entry emits. */
  ghost function EmittedParts(s: ScanInput, entry: Entry): seq<Option<FileRange>>
    requires ValidInput(s, entry)
  {
    if !SelfContained(s.src, entry.dataReference) then []
    else if entry.constructionMethod != 2 then PlainParts(s.src, entry)
    else if Resolvable(s.src, s.tables, entry) then AllParts(ItemParts(s.src, s.tables, entry, |entry.extents|))
    else []
  }

  lemma EmittedInFile(s: ScanInput, entry: Entry)
    requires ValidInput(s, entry)
    ensures PartsInFile(s.src.file, EmittedParts(s, entry))
    ensures Resolvable(s.src, s.tables, entry) ==>
              RangesInFile(s.src.file, ItemParts(s.src, s.tables, entry, |entry.extents|))
  {
    if Resolvable(s.src, s.tables, entry) {
      ItemPartsAreBytes(s.src, s.tables, entry, |entry.extents|);
    }
    if entry.constructionMethod != 2 && BaseInFile(s.src, entry).Some? {
      var base := BaseInFile(s.src, entry).value;
      forall e | 0 <= e < |entry.extents| && PlainPart(s.src, entry, e).Some?
        ensures var r := PlainPart(s.src, entry, e).value; r.offset + r.length <= |s.src.file|
      {
        LocatedInFile(s.src, entry, base, e);
      }
    }
    hide Resolvable;
    hide ItemParts;
    hide BaseInFile;
    hide LocateInFile;
  }

  /** The blocks that an entry emits; items that are not of interest emit none. */
  ghost function EmittedBlocks(s: ScanInput, entry: Entry): seq<Block>
    requires ValidInput(s, entry)
  {
    match FindItem(s.metas, entry.itemId)
    case None => []
    case Some(item) =>
      EmittedInFile(s, entry);
      ItemBlocks(s.src.file, TagOf(s.format, item), EmittedParts(s, entry), |EmittedParts(s, entry)|)
  }

  ghost predicate ValidInputs(s: ScanInput, entries: seq<Entry>) {
    SoundTables(s.src, s.tables) && forall i :: 0 <= i < |entries| ==> |entries[i].extents| <= U32_MAX
  }

  /** The blocks of the entries `[from, until)`. */
  ghost function BlocksBetween(s: ScanInput, entries: seq<Entry>, from: nat, until: nat): seq<Block>
    requires ValidInputs(s, entries) && until <= |entries|
  {
    if until <= from then [] else BlocksBetween(s, entries, from, until - 1) + EmittedBlocks(s, entries[until - 1])
  }

  // ----- the scan ----------------------------------------------------------------------------------------------

  /** Emits the parts of an item that does not refer to others; a part that is out of place is skipped. */
  method EmitPlainItem(sink: BlockSink, src: Source, tag: ItemTag, entry: Entry)
    requires sink.Valid() && ValidSource(src) && PartsInFile(src.file, PlainParts(src, entry))
    modifies sink, sink.out
    ensures sink.Valid()
    ensures sink.Collection()
            == EmitBlocks(old(sink.Collection()), sink.out.Length,
                          ItemBlocks(src.file, tag, PlainParts(src, entry), |entry.extents|))
  {
    ghost var parts, was := PlainParts(src, entry), sink.Collection();
    var n := |entry.extents|;
    var logicalOffset: U64 := 0;
    var e := 0;
    assert LogicalOffset(src.file, tag, parts, 0) == 0 && ItemBlocks(src.file, tag, parts, 0) == [];
    hide ItemBlocks;
    hide PartBlock;
    hide Emit;
    hide BaseInFile;
    hide LocateInFile;
    while e < n
      invariant 0 <= e <= n && sink.Valid() && logicalOffset == LogicalOffset(src.file, tag, parts, e)
      invariant sink.Collection() == EmitBlocks(was, sink.out.Length, ItemBlocks(src.file, tag, parts, e))
    {
      MoreBlocks(was, sink.out.Length, src.file, tag, parts, e);
      var base := BaseInFile(src, entry);
      if base.Some? {
        var located := LocateInFile(src, entry, base.value, e);
        if located.Some? {
          logicalOffset := EmitPart(sink, src.file, tag, parts, located.value, e, n, logicalOffset);
        }
      }
      e := e + 1;
    }
  }

  method EmitEntry(sink: BlockSink, s: ScanInput, entry: Entry)
    requires sink.Valid() && ValidInput(s, entry)
    modifies sink, sink.out
    ensures sink.Valid() && sink.Collection()
            == EmitBlocks(old(sink.Collection()), sink.out.Length, EmittedBlocks(s, entry))
  {
    EmittedInFile(s, entry);
    hide ItemBlocks;
    hide PartsInFile;
    hide Resolvable;
    var item := FindItem(s.metas, entry.itemId);
    if item.None? || !SelfContained(s.src, entry.dataReference) {
      NoBlocks(s, entry);
      return;
    }
    if entry.constructionMethod != 2 {
      EmitPlainItem(sink, s.src, TagOf(s.format, item.value), entry);
      return;
    }
    var parts := ResolveItem(s.src, s.tables, entry);
    if parts.None? {
      NoBlocks(s, entry);
      return;
    }
    EmitItem(sink, s.src.file, TagOf(s.format, item.value), parts.value);
  }

  lemma NoBlocks(s: ScanInput, entry: Entry)
    requires ValidInput(s, entry)
    requires FindItem(s.metas, entry.itemId).None? || EmittedParts(s, entry) == []
    ensures EmittedBlocks(s, entry) == []
  {
  }

  /** Collects the tables and emits every entry. */
  method EmitItems(sink: BlockSink, src: Source, entries: seq<Entry>, rows: seq<RefRow>, metas: seq<MetaItem>,
                   format: ContainerFormat)
    returns (ghost s: ScanInput)
    requires sink.Valid() && ValidSource(src) && forall i :: 0 <= i < |entries| ==> |entries[i].extents| <= U32_MAX
    modifies sink, sink.out
    ensures s.src == src && s.metas == metas && s.format == format
    ensures Built(src, entries, rows, MetaIds(metas), s.tables) && ValidInputs(s, entries) && sink.Valid()
    ensures sink.Collection() == EmitBlocks(old(sink.Collection()), sink.out.Length,
                                            BlocksBetween(s, entries, 0, |entries|))
  {
    var tables := CollectTables(src, entries, rows, MetaIds(metas));
    var input := ScanInput(src, tables, metas, format);
    s := input;
    ghost var was := sink.Collection();
    hide Built;
    hide EmittedBlocks;
    hide EmitBlocks;
    hide SoundTables;
    NothingEmitted(was, sink.out.Length);
    var i := 0;
    while i < |entries|
      invariant 0 <= i <= |entries| && sink.Valid()
      invariant sink.Collection() == EmitBlocks(was, sink.out.Length, BlocksBetween(s, entries, 0, i))
    {
      EmitEntry(sink, input, entries[i]);
      EmitBlocksJoin(was, sink.out.Length, BlocksBetween(s, entries, 0, i), EmittedBlocks(s, entries[i]));
      i := i + 1;
    }
  }

  lemma NothingEmitted(c: Collected, capacity: nat)
    ensures EmitBlocks(c, capacity, []) == c
  {
  }

  // ----- where the blocks of an entry are --------------------------------------------------------------------

  lemma {:induction false} BetweenJoin(s: ScanInput, entries: seq<Entry>, from: nat, mid: nat, until: nat)
    requires ValidInputs(s, entries) && from <= mid <= until <= |entries|
    ensures BlocksBetween(s, entries, from, until) == BlocksBetween(s, entries, from, mid)
            + BlocksBetween(s, entries, mid, until)
  {
    hide EmittedBlocks;
    hide ValidInputs;
    if mid < until {
      BetweenJoin(s, entries, from, mid, until - 1);
    }
  }

  lemma {:induction false} GroupIsItem(s: ScanInput, entry: Entry, tag: ItemTag, parts: seq<Option<FileRange>>, n: nat)
    requires PartsInFile(s.src.file, parts) && n <= |parts|
    ensures forall b :: b in ItemBlocks(s.src.file, tag, parts, n) ==> b.group == tag.itemId
  {
    if n > 0 {
      GroupIsItem(s, entry, tag, parts, n - 1);
      hide LogicalOffset;
    }
  }

  /** The group of a block is the number of its item. */
  lemma {:induction false} GroupsBetween(s: ScanInput, entries: seq<Entry>, from: nat, until: nat, id: U32)
    requires ValidInputs(s, entries) && until <= |entries| && forall i :: from <= i < until ==> entries[i].itemId != id
    ensures forall b :: b in BlocksBetween(s, entries, from, until) ==> b.group != id
  {
    if from < until {
      GroupsBetween(s, entries, from, until - 1, id);
      var entry := entries[until - 1];
      EmittedInFile(s, entry);
      var item := FindItem(s.metas, entry.itemId);
      if item.Some? {
        GroupIsItem(s, entry, TagOf(s.format, item.value), EmittedParts(s, entry), |EmittedParts(s, entry)|);
      }
      hide ItemBlocks;
      hide PartsInFile;
      hide EmittedParts;
      hide ValidInputs;
    }
  }

  // ----- what the parts of an entry are ----------------------------------------------------------------------

  /** The entry can be compared with what the recursive resolver does. */
  ghost predicate Agreeable(env: Env, s: ScanInput, entries: seq<Entry>, rows: seq<RefRow>, entry: Entry) {
    if entry.constructionMethod == 2 then Comparable(env, s.src, entries, rows, MetaIds(s.metas), entry)
    else SameItems(env, s.src, entries) && Stored(env, entries, entry) && entry.constructionMethod < 2
  }

  /** The ranges of an entry all of whose parts are there. */
  ghost predicate HasRanges(s: ScanInput, entry: Entry, ranges: seq<FileRange>, bytes: seq<Byte>) {
    && ValidInput(s, entry) && RangesInFile(s.src.file, ranges) && ranges != []
    && EmittedParts(s, entry) == AllParts(ranges) && RangeBytes(s.src.file, ranges) == bytes
  }

  /** The ranges of the extents of an item that does not refer to others. */
  ghost function PlainRanges(src: Source, entry: Entry, n: nat): (r: seq<FileRange>)
    requires n <= |entry.extents| && forall e :: 0 <= e < n ==> PlainPart(src, entry, e).Some?
    ensures |r| == n && forall e :: 0 <= e < n ==> PlainPart(src, entry, e) == Some(r[e])
  {
    if n == 0 then [] else PlainRanges(src, entry, n - 1) + [PlainPart(src, entry, n - 1).value]
  }

  lemma {:induction false} PlainExtentsLocated(env: Env, src: Source, entries: seq<Entry>, entry: Entry, loc: Location,
                                               n: nat, fuel: nat)
    requires SameItems(env, src, entries) && StoredAs(entry, loc) && entry.constructionMethod < 2 && fuel > 0
    requires n <= |entry.extents| && FlattenExtents(env, loc, n, fuel).Some? && BaseInFile(src, entry).Some?
    ensures forall e :: 0 <= e < n ==> PlainPart(src, entry, e).Some?
    ensures RangesInFile(src.file, PlainRanges(src, entry, n))
    ensures RangeBytes(src.file, PlainRanges(src, entry, n)) == FlattenExtents(env, loc, n, fuel).value
  {
    if n > 0 {
      var base := BaseInFile(src, entry).value;
      FlattenOneMore(env, loc, n - 1, fuel);
      PlainExtentsLocated(env, src, entries, entry, loc, n - 1, fuel);
      PlainExtentAgrees(env, src, entries, entry, loc, base, n - 1, fuel);
      assert entry.extents[n - 1].length != 0;
      OneMoreRange(src.file, PlainRanges(src, entry, n - 1), PlainPart(src, entry, n - 1).value);
      hide RangeBytes;
      hide RangesInFile;
      hide FlattenExtents;
      hide ExtentBytes;
      hide LocateInFile;
      hide BaseInFile;
      hide StoredAs;
      hide SameItems;
    } else {
      assert PlainRanges(src, entry, 0) == [] && RangeBytes(src.file, []) == [];
    }
  }

  /** An item that the recursive resolver has bytes for has all its parts, and they are these bytes. */
  lemma PlainHasRanges(env: Env, s: ScanInput, entries: seq<Entry>, rows: seq<RefRow>, entry: Entry)
    returns (ranges: seq<FileRange>)
    requires ValidInput(s, entry) && Agreeable(env, s, entries, rows, entry) && entry.constructionMethod != 2
    requires Flatten(env, entry.itemId, MAX_RESOLVE_PATH).Some?
    ensures HasRanges(s, entry, ranges, Flatten(env, entry.itemId, MAX_RESOLVE_PATH).value)
  {
    var loc := EntryIsStored(env, s.src, entries, entry);
    StoredItemBytes(env, entry, loc, MAX_RESOLVE_PATH);
    if BaseInFile(s.src, entry).None? {
      NoBaseNoBytes(env, s.src, entries, entry, loc, MAX_RESOLVE_PATH);
    }
    var n := |entry.extents|;
    assert loc.extents == entry.extents && entry.dataReference == 0;
    PlainExtentsLocated(env, s.src, entries, entry, loc, n, MAX_RESOLVE_PATH);
    ranges := PlainRanges(s.src, entry, n);
    assert PlainParts(s.src, entry) == AllParts(ranges);
    hide Flatten;
    hide FlattenExtents;
    hide RangeBytes;
    hide StoredAs;
    hide SameItems;
    hide PlainPart;
  }

  lemma DerivedHasRanges(env: Env, s: ScanInput, entries: seq<Entry>, rows: seq<RefRow>, entry: Entry)
    returns (ranges: seq<FileRange>)
    requires ValidInput(s, entry) && Agreeable(env, s, entries, rows, entry) && entry.constructionMethod == 2
    requires Built(s.src, entries, rows, MetaIds(s.metas), s.tables)
             && Flatten(env, entry.itemId, MAX_RESOLVE_PATH).Some?
    ensures HasRanges(s, entry, ranges, Flatten(env, entry.itemId, MAX_RESOLVE_PATH).value)
  {
    assert Comparable(env, s.src, entries, rows, MetaIds(s.metas), entry) && SoundTables(s.src, s.tables);
    assert SameItems(env, s.src, entries) && Stored(env, entries, entry);
    hide *;
    TablesAgree(env, s.src, entries, rows, MetaIds(s.metas), s.tables, entry, MAX_RESOLVE_PATH);
    ItemPartsAreBytes(s.src, s.tables, entry, |entry.extents|);
    SomeParts(s.src, s.tables, entry, |entry.extents|);
    var _ := EntryIsStored(env, s.src, entries, entry);
    ranges := DerivedRanges(s, entry, Flatten(env, entry.itemId, MAX_RESOLVE_PATH).value);
  }

  /** An item of this file that can be resolved to these bytes has ranges that hold them. */
  lemma DerivedRanges(s: ScanInput, entry: Entry, bytes: seq<Byte>) returns (ranges: seq<FileRange>)
    requires ValidInput(s, entry) && entry.constructionMethod == 2 && entry.dataReference == 0
    requires Resolvable(s.src, s.tables, entry)
    requires PartsFor(s.src, s.tables, entry, |entry.extents|, ItemParts(s.src, s.tables, entry, |entry.extents|))
    requires ScannedBytes(s.src, s.tables, entry, |entry.extents|) == Some(bytes)
    requires ItemParts(s.src, s.tables, entry, |entry.extents|) != []
    ensures HasRanges(s, entry, ranges, bytes)
  {
    ranges := ItemParts(s.src, s.tables, entry, |entry.extents|);
    hide RangeBytes;
    hide ScannedBytes;
    hide ItemParts;
    hide SoundTables;
  }

  lemma AgreeableHasRanges(env: Env, s: ScanInput, entries: seq<Entry>, rows: seq<RefRow>, entry: Entry)
    returns (ranges: seq<FileRange>)
    requires ValidInput(s, entry) && Agreeable(env, s, entries, rows, entry)
    requires Built(s.src, entries, rows, MetaIds(s.metas), s.tables)
             && Flatten(env, entry.itemId, MAX_RESOLVE_PATH).Some?
    ensures HasRanges(s, entry, ranges, Flatten(env, entry.itemId, MAX_RESOLVE_PATH).value)
  {
    hide *;
    if entry.constructionMethod == 2 {
      ranges := DerivedHasRanges(env, s, entries, rows, entry);
    } else {
      ranges := PlainHasRanges(env, s, entries, rows, entry);
    }
  }

  // ----- extraction ------------------------------------------------------------------------------------------

  /** No block is of the group of the item. */
  ghost predicate Foreign(blocks: seq<Block>, id: U32) {
    forall b :: b in blocks ==> b.group != id
  }

  function Numbers(start: nat, n: nat): (r: seq<U32>)
    requires start + n <= U32_MAX
    ensures |r| == n && forall i :: 0 <= i < n ==> r[i] == start + i
  {
    seq(n, i requires 0 <= i < n => start + i)
  }

  /** Blocks of one item among blocks of other groups are all that belongs to its stream. */
  lemma AmongForeign(before: seq<Block>, own: seq<Block>, after: seq<Block>, tag: ItemTag, data: seq<FileRange>)
    requires |before + own + after| <= U32_MAX && |own| == |data|
    requires forall i :: 0 <= i < |own| ==> CarriesRange(own[i], tag, data, i)
    requires Foreign(before, tag.itemId) && Foreign(after, tag.itemId)
    ensures HoldsItem(before + own + after, tag, data, Numbers(|before|, |own|))
  {
    var blocks, order := before + own + after, Numbers(|before|, |own|);
    forall i | 0 <= i < |order| ensures order[i] < |blocks| && CarriesRange(blocks[order[i]], tag, data, i) {
      assert blocks[order[i]] == own[i];
    }
    forall i, j: U32 | 0 <= i < |order| && j < |blocks|
        && PS.SameStream(blocks[order[i]], blocks[j]) ensures j in order {
      assert blocks[order[i]] == own[i] && CarriesRange(own[i], tag, data, i);
      assert own[i].partCount > 1 && blocks[j].group == tag.itemId;
      OnlyOwn(before, own, after, tag, j);
      assert order[j - |before|] == j;
    }
  }

  lemma OnlyOwn(before: seq<Block>, own: seq<Block>, after: seq<Block>, tag: ItemTag, j: nat)
    requires j < |before + own + after| && Foreign(before, tag.itemId) && Foreign(after, tag.itemId)
    ensures (before + own + after)[j].group == tag.itemId ==> |before| <= j < |before| + |own|
  {
    var blocks := before + own + after;
    if j < |before| {
      assert blocks[j] == before[j] && before[j] in before;
    } else if j >= |before| + |own| {
      assert blocks[j] == after[j - |before| - |own|] && blocks[j] in after;
    }
  }

  /** What extraction from any of an item's blocks must return. */
  ghost predicate Delivers(file: seq<Byte>, blocks: seq<Block>, start: nat, count: nat, payload: seq<Byte>)
    requires |file| <= SPAN_MAX && start + count <= |blocks| <= U32_MAX && |payload| <= U64_MAX
  {
    forall p: U32, scratch: nat, options: PS.PayloadOptions ::
      start <= p < start + count && count <= Min(options.maxParts, scratch) && !PS.OverLimit(|payload|, options) ==>
        PS.Extraction(file, blocks, p, scratch, options) == PS.Stream(payload)
  }

  lemma OwnDelivers(file: seq<Byte>, before: seq<Block>, own: seq<Block>, after: seq<Block>, tag: ItemTag,
                    ranges: seq<FileRange>)
    requires |before + own + after| <= U32_MAX && PartsInFile(file, AllParts(ranges)) && RangesInFile(file, ranges)
             && ranges != []
    requires own == ItemBlocks(file, tag, AllParts(ranges), |ranges|) && |RangeBytes(file, ranges)| <= U64_MAX
    requires Foreign(before, tag.itemId) && Foreign(after, tag.itemId)
    ensures |own| == |ranges| && own[0].outerSize == ranges[0].length <= |RangeBytes(file, ranges)|
    ensures Delivers(file, before + own + after, |before|, |own|,
                     PayloadBytes(tag, RangeBytes(file, ranges), ranges[0].length))
  {
    var data, blocks := DataRanges(file, tag, ranges), before + own + after;
    BlocksCarry(file, tag, ranges, |ranges|);
    DataIsPayload(file, tag, ranges);
    var payload := PayloadBytes(tag, RangeBytes(file, ranges), ranges[0].length);
    assert |payload| <= U64_MAX;
    assert Countable(file, data);
    AmongForeign(before, own, after, tag, data);
    hide *;
    HeldDelivers(file, blocks, tag, data, |before|, payload);
  }

  lemma HeldDelivers(file: seq<Byte>, blocks: seq<Block>, tag: ItemTag, data: seq<FileRange>, start: nat,
                     payload: seq<Byte>)
    requires Countable(file, data) && start + |data| <= |blocks| <= U32_MAX
             && HoldsItem(blocks, tag, data, Numbers(start, |data|))
    requires RangeBytes(file, data) == payload
    ensures Delivers(file, blocks, start, |data|, payload)
  {
    var order := Numbers(start, |data|);
    hide HoldsItem;
    hide RangeBytes;
    hide PS.Extraction;
    forall p: U32, scratch: nat, options: PS.PayloadOptions |
      start <= p < start + |data| && |data| <= Min(options.maxParts, scratch) && !PS.OverLimit(|payload|, options)
      ensures PS.Extraction(file, blocks, p, scratch, options) == PS.Stream(payload)
    {
      assert order[p - start] == p;
      ItemExtracts(file, blocks, tag, data, order, p - start, scratch, options);
    }
  }

  // ----- from the tables to the payload ----------------------------------------------------------------------

  /** The payload of an item with these bytes, the first `firstSize` of which are its first part. */
  ghost predicate DeliversItem(s: ScanInput, blocks: seq<Block>, start: nat, count: nat, item: MetaItem,
                               bytes: seq<Byte>)
    requires |s.src.file| <= SPAN_MAX && start + count <= |blocks| <= U32_MAX && |bytes| <= U64_MAX
  {
    && count > 0 && blocks[start].outerSize <= |bytes|
    && Delivers(s.src.file, blocks, start, count, PayloadBytes(TagOf(s.format, item), bytes, blocks[start].outerSize))
  }

  /** The blocks of entry `i`, where they lie among all others, deliver the bytes of the item. */
  ghost predicate EntryDelivers(env: Env, s: ScanInput, entries: seq<Entry>, blocks: seq<Block>, before: nat, i: nat)
    requires ValidInputs(s, entries) && i < |entries|
  {
    var start, count := before + |BlocksBetween(s, entries, 0, i)|, |EmittedBlocks(s, entries[i])|;
    var item, bytes := FindItem(s.metas, entries[i].itemId), Flatten(env, entries[i].itemId, MAX_RESOLVE_PATH);
    && |s.src.file| <= SPAN_MAX && start + count <= |blocks| <= U32_MAX
    && (item.Some? && bytes.Some? ==> DeliversItem(s, blocks, start, count, item.value, bytes.value))
  }

  /** The blocks of one entry between those of the others. */
  lemma AroundEntry(s: ScanInput, entries: seq<Entry>, i: nat)
    requires ValidInputs(s, entries) && i < |entries|
    ensures BlocksBetween(s, entries, 0, |entries|)
            == BlocksBetween(s, entries, 0, i) + EmittedBlocks(s, entries[i])
                + BlocksBetween(s, entries, i + 1, |entries|)
  {
    assert ValidInput(s, entries[i]);
    hide EmittedBlocks;
    hide ValidInputs;
    BetweenJoin(s, entries, 0, i, |entries|);
    BetweenJoin(s, entries, i, i + 1, |entries|);
    OneEntry(s, entries, i);
    hide BlocksBetween;
    Associate(BlocksBetween(s, entries, 0, i), EmittedBlocks(s, entries[i]),
              BlocksBetween(s, entries, i + 1, |entries|));
  }

  lemma OneEntry(s: ScanInput, entries: seq<Entry>, i: nat)
    requires ValidInputs(s, entries) && i < |entries|
    ensures BlocksBetween(s, entries, i, i + 1) == EmittedBlocks(s, entries[i])
  {
    assert BlocksBetween(s, entries, i, i) == [];
    hide EmittedBlocks;
  }

  lemma Associate(a: seq<Block>, b: seq<Block>, c: seq<Block>)
    ensures a + (b + c) == a + b + c
  {
  }

  lemma ForeignJoin(a: seq<Block>, b: seq<Block>, id: U32)
    requires Foreign(a, id) && Foreign(b, id)
    ensures Foreign(a + b, id)
  {
  }

  lemma DistinctIds(env: Env, s: ScanInput, entries: seq<Entry>, rows: seq<RefRow>, i: nat)
    requires i < |entries| && Agreeable(env, s, entries, rows, entries[i])
    ensures forall j :: 0 <= j < |entries| && j != i ==> entries[j].itemId != entries[i].itemId
    ensures |s.src.file| <= SPAN_MAX
  {
  }

  /** The blocks of an entry with known ranges. */
  lemma BlocksOfRanges(s: ScanInput, entry: Entry, ranges: seq<FileRange>, bytes: seq<Byte>, item: MetaItem)
    requires HasRanges(s, entry, ranges, bytes) && FindItem(s.metas, entry.itemId) == Some(item)
    ensures PartsInFile(s.src.file, AllParts(ranges))
    ensures EmittedBlocks(s, entry) == ItemBlocks(s.src.file, TagOf(s.format, item), AllParts(ranges), |ranges|)
  {
    EmittedInFile(s, entry);
    hide EmittedParts;
    hide ItemBlocks;
    hide RangeBytes;
  }

  /** An item that both sides can take is delivered from wherever its blocks are in the list. */
  lemma EntryIsDelivered(env: Env, s: ScanInput, entries: seq<Entry>, rows: seq<RefRow>, before: seq<Block>,
                         after: seq<Block>, i: nat)
    requires ValidInputs(s, entries) && Built(s.src, entries, rows, MetaIds(s.metas), s.tables)
    requires i < |entries| && Agreeable(env, s, entries, rows, entries[i])
    requires |before + BlocksBetween(s, entries, 0, |entries|) + after| <= U32_MAX
    requires Foreign(before, entries[i].itemId) && Foreign(after, entries[i].itemId)
    ensures EntryDelivers(env, s, entries, before + BlocksBetween(s, entries, 0, |entries|) + after, |before|, i)
  {
    var entry := entries[i];
    assert ValidInput(s, entry);
    DistinctIds(env, s, entries, rows, i);
    SurroundedByForeign(s, entries, before, after, i);
    AroundEntry(s, entries, i);
    var left, own, right := BlocksBetween(s, entries, 0, i), EmittedBlocks(s, entry),
        BlocksBetween(s, entries, i + 1, |entries|);
    Regroup(before, left, own, right, after);
    hide *;
    if FindItem(s.metas, entry.itemId).Some? && Flatten(env, entry.itemId, MAX_RESOLVE_PATH).Some? {
      FoundDelivers(env, s, entries, rows, entry, before + left, right + after);
    }
    EntryConcludes(env, s, entries, before, left, own, right, after, i);
  }

  lemma EntryConcludes(env: Env, s: ScanInput, entries: seq<Entry>, before: seq<Block>, left: seq<Block>,
                       own: seq<Block>, right: seq<Block>,
                       after: seq<Block>, i: nat)
    requires ValidInputs(s, entries) && i < |entries| && ValidInput(s, entries[i]) && |s.src.file| <= SPAN_MAX
    requires left == BlocksBetween(s, entries, 0, i) && own == EmittedBlocks(s, entries[i])
    requires |(before + left) + own + (right + after)| <= U32_MAX
    requires var item, bytes := FindItem(s.metas, entries[i].itemId), Flatten(env, entries[i].itemId, MAX_RESOLVE_PATH);
             item.Some? && bytes.Some? ==>
               DeliversItem(s, (before + left) + own + (right + after), |before + left|, |own|, item.value, bytes.value)
    ensures EntryDelivers(env, s, entries, (before + left) + own + (right + after), |before|, i)
  {
    hide DeliversItem;
    hide Flatten;
    hide FindItem;
    hide EmittedBlocks;
    hide BlocksBetween;
    hide ValidInput;
    hide ValidInputs;
  }

  lemma Regroup(a: seq<Block>, b: seq<Block>, c: seq<Block>, d: seq<Block>, e: seq<Block>)
    ensures a + (b + c + d) + e == (a + b) + c + (d + e)
  {
  }

  lemma SurroundedByForeign(s: ScanInput, entries: seq<Entry>, before: seq<Block>, after: seq<Block>, i: nat)
    requires ValidInputs(s, entries) && i < |entries| && forall j :: 0 <= j < |entries| && j != i ==>
               entries[j].itemId != entries[i].itemId
    requires Foreign(before, entries[i].itemId) && Foreign(after, entries[i].itemId)
    ensures Foreign(before + BlocksBetween(s, entries, 0, i), entries[i].itemId)
    ensures Foreign(BlocksBetween(s, entries, i + 1, |entries|) + after, entries[i].itemId)
  {
    hide ValidInputs;
    hide BlocksBetween;
    var id := entries[i].itemId;
    GroupsBetween(s, entries, 0, i, id);
    GroupsBetween(s, entries, i + 1, |entries|, id);
    ForeignJoin(before, BlocksBetween(s, entries, 0, i), id);
    ForeignJoin(BlocksBetween(s, entries, i + 1, |entries|), after, id);
  }

  lemma FoundDelivers(env: Env, s: ScanInput, entries: seq<Entry>, rows: seq<RefRow>, entry: Entry, before: seq<Block>,
                      after: seq<Block>)
    requires ValidInput(s, entry) && Built(s.src, entries, rows, MetaIds(s.metas), s.tables)
             && Agreeable(env, s, entries, rows, entry)
    requires |before + EmittedBlocks(s, entry) + after| <= U32_MAX && Foreign(before, entry.itemId)
             && Foreign(after, entry.itemId)
    requires FindItem(s.metas, entry.itemId).Some? && Flatten(env, entry.itemId, MAX_RESOLVE_PATH).Some?
    ensures |s.src.file| <= SPAN_MAX
    ensures DeliversItem(s, before + EmittedBlocks(s, entry) + after, |before|, |EmittedBlocks(s, entry)|,
                         FindItem(s.metas, entry.itemId).value, Flatten(env, entry.itemId, MAX_RESOLVE_PATH).value)
  {
    var item, bytes, own := FindItem(s.metas, entry.itemId).value, Flatten(env, entry.itemId, MAX_RESOLVE_PATH).value,
        EmittedBlocks(s, entry);
    var ranges := AgreeableHasRanges(env, s, entries, rows, entry);
    BlocksOfRanges(s, entry, ranges, bytes, item);
    assert RangesInFile(s.src.file, ranges) && ranges != [] && RangeBytes(s.src.file, ranges) == bytes;
    hide *;
    OwnDelivers(s.src.file, before, own, after, TagOf(s.format, item), ranges);
    Delivered(s, before, own, after, item, bytes);
  }

  lemma Delivered(s: ScanInput, before: seq<Block>, own: seq<Block>, after: seq<Block>, item: MetaItem,
                  bytes: seq<Byte>)
    requires |s.src.file| <= SPAN_MAX && |before + own + after| <= U32_MAX && |bytes| <= U64_MAX && own != []
             && own[0].outerSize <= |bytes|
    requires Delivers(s.src.file, before + own + after, |before|, |own|,
                      PayloadBytes(TagOf(s.format, item), bytes, own[0].outerSize))
    ensures DeliversItem(s, before + own + after, |before|, |own|, item, bytes)
  {
    assert (before + own + after)[|before|] == own[0];
    hide Delivers;
    hide PayloadBytes;
  }

  lemma {:induction false} RoomForAll(c: Collected, capacity: nat, blocks: seq<Block>)
    requires |c.blocks| + |blocks| <= capacity
    ensures EmitBlocks(c, capacity, blocks).blocks == c.blocks + blocks
    ensures EmitBlocks(c, capacity, blocks).status == c.status
  {
    if blocks != [] {
      RoomForAll(c, capacity, blocks[..|blocks| - 1]);
    }
  }

  /** The entry can be compared, and no block of the list is of the group of its item. */
  ghost predicate Expects(env: Env, s: ScanInput, entries: seq<Entry>, rows: seq<RefRow>, before: seq<Block>, i: nat)
    requires i < |entries|
  {
    Agreeable(env, s, entries, rows, entries[i]) && Foreign(before, entries[i].itemId)
  }

  /**
   * End to end: scans all items behind whatever blocks the sink holds already. If there is room, then
   * for every entry that can be compared with the recursive resolver, and has bytes there, extraction
   * from any of its blocks in the finished list returns these bytes.
   */
  method ScanItems(sink: BlockSink, src: Source, entries: seq<Entry>, rows: seq<RefRow>, metas: seq<MetaItem>,
                   format: ContainerFormat,
                   ghost env: Env)
    returns (ghost s: ScanInput)
    requires sink.Valid() && ValidSource(src) && forall i :: 0 <= i < |entries| ==> |entries[i].extents| <= U32_MAX
    requires sink.out.Length <= U32_MAX
    modifies sink, sink.out
    ensures s.src == src && s.metas == metas && s.format == format && sink.Valid() && ValidInputs(s, entries)
    ensures |old(sink.Collection()).blocks| + |BlocksBetween(s, entries, 0, |entries|)| <= sink.out.Length ==>
              && sink.Collection().blocks == old(sink.Collection()).blocks + BlocksBetween(s, entries, 0, |entries|)
              && forall i :: 0 <= i < |entries| && Expects(env, s, entries, rows, old(sink.Collection()).blocks, i) ==>
                   EntryDelivers(env, s, entries, sink.Collection().blocks, |old(sink.Collection()).blocks|, i)
  {
    ghost var was := sink.Collection();
    s := EmitItems(sink, src, entries, rows, metas, format);
    ghost var all := BlocksBetween(s, entries, 0, |entries|);
    hide *;
    if |was.blocks| + |all| <= sink.out.Length {
      RoomForAll(was, sink.out.Length, all);
      forall i | 0 <= i < |entries| && Expects(env, s, entries, rows, was.blocks, i)
        ensures EntryDelivers(env, s, entries, was.blocks + all, |was.blocks|, i)
      {
        ExpectedIsDelivered(env, s, entries, rows, was.blocks, i);
      }
    }
  }

  lemma ExpectedIsDelivered(env: Env, s: ScanInput, entries: seq<Entry>, rows: seq<RefRow>, before: seq<Block>, i: nat)
    requires ValidInputs(s, entries) && Built(s.src, entries, rows, MetaIds(s.metas), s.tables)
    requires i < |entries| && Expects(env, s, entries, rows, before, i)
    requires |before| + |BlocksBetween(s, entries, 0, |entries|)| <= U32_MAX
    ensures EntryDelivers(env, s, entries, before + BlocksBetween(s, entries, 0, |entries|), |before|, i)
  {
    var all := BlocksBetween(s, entries, 0, |entries|);
    assert before + all + [] == before + all;
    assert Foreign([], entries[i].itemId) && Expects(env, s, entries, rows, before, i);
    assert Agreeable(env, s, entries, rows, entries[i]) && Foreign(before, entries[i].itemId);
    hide *;
    EntryIsDelivered(env, s, entries, rows, before, [], i);
  }
}
