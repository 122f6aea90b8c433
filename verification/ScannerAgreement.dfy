/**
 * The scanner and the recursive resolver agree on items that are built from plain items (construction
 * method 2 over methods 0 and 1): the ranges of one are the bytes of the other.
 */
module ScannerAgreement {
  import opened Bytes
  import opened ItemData
  import opened ScannerLayouts
  import opened ScannerItems
  import opened ScannerParts

  // ----- the tables of both sides ---------------------------------------------------------------------

  /** The resolver stores the entry in full, and no extent is left to the end of its source. */
  ghost predicate StoredAs(entry: Entry, loc: Location) {
    && loc.itemId == entry.itemId && loc.constructionMethod == entry.constructionMethod
    && loc.dataReferenceIndex == entry.dataReference == 0 && loc.baseOffset == entry.baseOffset
    && loc.extents == entry.extents && loc.extentCount == |entry.extents| <= MAX_EXTENT_RECORDS && !loc.extentTruncated
    && (loc.lengthOverflow <==> SumLengths(entry.extents, |entry.extents|) > U64_MAX)
    && forall e :: 0 <= e < |entry.extents| ==> entry.extents[e].length != 0
  }

  /** Both sides have the same items, files and `idat` boxes; how an item is stored is another matter. */
  ghost predicate SameItems(env: Env, src: Source, entries: seq<Entry>) {
    && ValidEnv(env) && ValidSource(src) && src.file == env.file && src.indexSize == env.props.indexSize
    && (env.props.haveIdat <==> src.idat.Some?)
    && (src.idat.Some? ==>
         && src.idat.value == Idat(env.props.idatOffset, env.props.idatEnd)
         && env.props.idatEnd <= |env.file|)
    && |env.props.locations| == |entries|
    && (forall i :: 0 <= i < |entries| ==> env.props.locations[i].itemId == entries[i].itemId)
    && (forall i, j :: 0 <= i < j < |entries| ==> entries[i].itemId != entries[j].itemId)
  }

  function RowEdges(row: RefRow): (r: seq<RefEdge>)
    ensures |r| == |row.toItems| && forall j :: 0 <= j < |r| ==>
              r[j] == RefEdge(row.refType, row.fromItem, row.toItems[j])
  {
    seq(|row.toItems|, j requires 0 <= j < |row.toItems| => RefEdge(row.refType, row.fromItem, row.toItems[j]))
  }

  function EdgesOf(rows: seq<RefRow>): seq<RefEdge> {
    if rows == [] then [] else EdgesOf(rows[..|rows| - 1]) + RowEdges(rows[|rows| - 1])
  }

  predicate TargetIn(rows: seq<RefRow>, items: seq<U32>, n: nat, id: U32)
    requires n <= |rows|
  {
    exists r :: 0 <= r < n && rows[r].refType == Iloc() && rows[r].fromItem in items && id in rows[r].toItems
  }

  /** All ids that occur as targets. */
  ghost function TargetSet(rows: seq<RefRow>, items: seq<U32>): set<U32> {
    set r, j | 0 <= r < |rows| && 0 <= j < |rows[r].toItems| && rows[r].refType == Iloc()
        && rows[r].fromItem in items :: rows[r].toItems[j]
  }

  /** All items of interest with references. */
  ghost function FromSet(rows: seq<RefRow>, items: seq<U32>): set<U32> {
    set id | id in items && Wanted(rows, items, |rows|, id)
  }

  /** The references are the same, none has target 0, and they fit the tables of the scanner. */
  ghost predicate SameReferences(env: Env, rows: seq<RefRow>, items: seq<U32>) {
    && env.props.edges == EdgesOf(rows) && !env.props.edgesTruncated
    && (forall r :: 0 <= r < |rows| && rows[r].refType == Iloc() ==> 0 !in rows[r].toItems)
    && (forall id: U32 :: id in items ==> |IlocTargets(env.props.edges, id)| <= MAX_TO_IDS)
    && |FromSet(rows, items)| <= MAX_FROM_IDS && |TargetSet(rows, items)| <= MAX_REFERENCED_IDS
  }

  // ----- entries and locations ----------------------------------------------------------------------------

  lemma {:induction false} FirstIsOnly(locations: seq<Location>, i: nat)
    requires i < |locations| && forall a, b :: 0 <= a < b < |locations| ==> locations[a].itemId != locations[b].itemId
    ensures LookupLocation(locations, locations[i].itemId) == Some(locations[i])
  {
    if i > 0 {
      FirstIsOnly(locations[1..], i - 1);
    }
  }

  lemma {:induction false} NotLocated(locations: seq<Location>, id: U32)
    requires forall a :: 0 <= a < |locations| ==> locations[a].itemId != id
    ensures LookupLocation(locations, id) == None
  {
    if locations != [] {
      NotLocated(locations[1..], id);
    }
  }

  lemma {:induction false} LastIsOnly(entries: seq<Entry>, n: nat, id: U32)
    requires n <= |entries|
    ensures LastEntry(entries, n, id).Some? ==> exists i :: 0 <= i < n && LastEntry(entries, n, id) == Some(entries[i])
    ensures LastEntry(entries, n, id).None? ==> forall i :: 0 <= i < n ==> entries[i].itemId != id
  {
    if n > 0 {
      LastIsOnly(entries, n - 1, id);
    }
  }

  /** Both tables find the same item. */
  lemma TablesFindSame(env: Env, src: Source, entries: seq<Entry>, id: U32)
    requires SameItems(env, src, entries)
    ensures LookupLocation(env.props.locations, id).Some? <==> LastEntry(entries, |entries|, id).Some?
    ensures LastEntry(entries, |entries|, id).Some? ==>
              exists i :: 0 <= i < |entries| && LastEntry(entries, |entries|, id) == Some(entries[i])
                          && LookupLocation(env.props.locations, id) == Some(env.props.locations[i])
  {
    LastIsOnly(entries, |entries|, id);
    if LastEntry(entries, |entries|, id).Some? {
      var i :| 0 <= i < |entries| && LastEntry(entries, |entries|, id) == Some(entries[i]);
      FirstIsOnly(env.props.locations, i);
    } else {
      NotLocated(env.props.locations, id);
    }
  }

  // ----- references ------------------------------------------------------------------------------------------

  lemma {:induction false} TargetsJoin(a: seq<RefEdge>, b: seq<RefEdge>, id: U32)
    ensures IlocTargets(a + b, id) == IlocTargets(a, id) + IlocTargets(b, id)
  {
    if b == [] {
      assert a + b == a;
    } else {
      var init := b[..|b| - 1];
      TargetsJoin(a, init, id);
      assert (a + b)[..|a + b| - 1] == a + init;
    }
  }

  lemma {:induction false} RowTargets(row: RefRow, n: nat, id: U32)
    requires n <= |row.toItems|
    ensures IlocTargets(RowEdges(row)[..n], id) == if IsIlocRow(row, id) then row.toItems[..n] else []
  {
    if n > 0 {
      RowTargets(row, n - 1, id);
      var edges := RowEdges(row)[..n];
      assert edges[..n - 1] == RowEdges(row)[..n - 1];
    }
  }

  lemma {:induction false} AllTargetsFit(targets: seq<U32>, more: seq<U32>)
    requires |targets| + |more| <= MAX_TO_IDS && 0 !in more
    ensures AddTargets(targets, more) == targets + more
  {
    if more != [] {
      AllTargetsFit(targets, more[..|more| - 1]);
    }
  }

  /** What the scanner stores for an item are all its targets. */
  lemma {:induction false} StoredAreTargets(rows: seq<RefRow>, n: nat, id: U32)
    requires n <= |rows| && |IlocTargets(EdgesOf(rows[..n]), id)| <= MAX_TO_IDS
    requires forall r :: 0 <= r < |rows| && rows[r].refType == Iloc() ==> 0 !in rows[r].toItems
    ensures StoredTargets(rows, n, id) == IlocTargets(EdgesOf(rows[..n]), id)
  {
    if n > 0 {
      var row := rows[n - 1];
      assert rows[..n][..n - 1] == rows[..n - 1];
      var edges := RowEdges(row);
      assert edges[..|edges|] == edges;
      RowTargets(row, |edges|, id);
      TargetsJoin(EdgesOf(rows[..n - 1]), edges, id);
      assert EdgesOf(rows[..n]) == EdgesOf(rows[..n - 1]) + edges;
      assert n == 1 ==> IlocTargets(EdgesOf(rows[..n - 1]), id) == [];
      hide EdgesOf;
      hide IlocTargets;
      StoredAreTargets(rows, n - 1, id);
      if IsIlocRow(row, id) {
        assert row.toItems[..|edges|] == row.toItems;
        AllTargetsFit(StoredTargets(rows, n - 1, id), row.toItems);
      }
    }
  }

  /** A list without repetition that is as long as a set is large covers it. */
  lemma {:induction false} DistinctCovers(s: seq<U32>, all: set<U32>)
    requires (forall i, j :: 0 <= i < j < |s| ==> s[i] != s[j]) && (forall i :: 0 <= i < |s| ==> s[i] in all)
             && |s| >= |all|
    ensures forall x :: x in all ==> x in s
  {
    if s != [] {
      var last := s[|s| - 1];
      assert last in all && |all - {last}| == |all| - 1;
      DistinctCovers(s[..|s| - 1], all - {last});
      forall x | x in all ensures x in s {
        assert x != last ==> x in all - {last};
      }
    }
  }

  function FromIds(refs: seq<ItemRefs>): (r: seq<U32>)
    ensures |r| == |refs| && forall k :: 0 <= k < |r| ==> r[k] == refs[k].fromId
  {
    seq(|refs|, k requires 0 <= k < |refs| => refs[k].fromId)
  }

  lemma EveryFromStored(rows: seq<RefRow>, items: seq<U32>, refs: seq<ItemRefs>, id: U32)
    requires RefTable(rows, items, |rows|, refs) && |FromSet(rows, items)| <= MAX_FROM_IDS
    requires Wanted(rows, items, |rows|, id)
    ensures FindRefs(refs, id).Some?
  {
    if |refs| == MAX_FROM_IDS {
      hide Wanted;
      DistinctCovers(FromIds(refs), FromSet(rows, items));
      assert id in FromSet(rows, items);
      assert id in FromIds(refs);
    }
  }

  lemma NoRowsNoTargets(rows: seq<RefRow>, items: seq<U32>, id: U32)
    requires id in items && !Wanted(rows, items, |rows|, id)
    requires forall r :: 0 <= r < |rows| && rows[r].refType == Iloc() ==> 0 !in rows[r].toItems
    requires |IlocTargets(EdgesOf(rows), id)| <= MAX_TO_IDS
    ensures IlocTargets(EdgesOf(rows), id) == []
  {
    NothingStored(rows, items, |rows|, id);
    assert rows[..|rows|] == rows;
    StoredAreTargets(rows, |rows|, id);
  }

  /** Both sides look up the same target. */
  lemma ReferencesAgree(env: Env, rows: seq<RefRow>, items: seq<U32>, refs: seq<ItemRefs>, id: U32, index: U64)
    requires SameReferences(env, rows, items) && RefTable(rows, items, |rows|, refs) && id in items
    ensures LookupReference(refs, id, index) == ReferenceTarget(env.props, id, index)
  {
    assert rows[..|rows|] == rows;
    StoredAreTargets(rows, |rows|, id);
    if Wanted(rows, items, |rows|, id) {
      EveryFromStored(rows, items, refs, id);
      StoredNonzero(rows, |rows|, id);
    } else {
      NoRowsNoTargets(rows, items, id);
    }
    hide Wanted;
    hide EdgesOf;
    hide FromSet;
    hide TargetSet;
  }

  lemma {:induction false} AddedFrom(targets: seq<U32>, more: seq<U32>)
    ensures forall x :: x in AddTargets(targets, more) ==> x in targets || (x in more && x != 0)
  {
    if more != [] {
      AddedFrom(targets, more[..|more| - 1]);
    }
  }

  lemma {:induction false} StoredNonzero(rows: seq<RefRow>, n: nat, id: U32)
    requires n <= |rows|
    ensures 0 !in StoredTargets(rows, n, id)
    ensures forall x, items :: x in StoredTargets(rows, n, id) && id in items ==> TargetIn(rows, items, n, x)
  {
    if n > 0 {
      StoredNonzero(rows, n - 1, id);
      AddedFrom(StoredTargets(rows, n - 1, id), rows[n - 1].toItems);
      forall x, items | x in StoredTargets(rows, n, id) && id in items ensures TargetIn(rows, items, n, x) {
        if x in StoredTargets(rows, n - 1, id) {
          assert TargetIn(rows, items, n - 1, x);
        }
      }
    }
  }

  // ----- plain items ----------------------------------------------------------------------------------------

  lemma {:induction false} CoveredPrefix(file: seq<Byte>, a: seq<ExtentMap>, b: seq<ExtentMap>, n: nat)
    requires n <= |a| <= |b| && a == b[..|a|] && Tiles(file, a) && Tiles(file, b)
    ensures Covered(file, a, n) == Covered(file, b, n)
  {
    if n > 0 {
      CoveredPrefix(file, a, b, n - 1);
    }
  }

  /** The bytes an extent of a plain item is cut from, and where they start in the file. */
  lemma PlainExtentAgrees(env: Env, src: Source, entries: seq<Entry>, entry: Entry, loc: Location, base: U64, e: nat,
                          fuel: nat)
    requires SameItems(env, src, entries) && StoredAs(entry, loc) && entry.constructionMethod < 2
    requires BaseInFile(src, entry) == Some(base) && e < |entry.extents| && fuel > 0
    ensures LocateInFile(src, entry, base, e).Some? <==> ExtentBytes(env, loc, e, fuel).Some?
    ensures LocateInFile(src, entry, base, e).Some? ==>
              var range := LocateInFile(src, entry, base, e).value;
              && range.length == entry.extents[e].length && range.offset + range.length <= |src.file|
              && RangeSlice(src.file, range) == ExtentBytes(env, loc, e, fuel).value
  {
    var located := LocateInFile(src, entry, base, e);
    if located.Some? && entry.constructionMethod == 1 {
      var idat := src.idat.value;
      SliceOfSlice(src.file, idat.offset, idat.end - idat.offset, located.value.offset - idat.offset,
                   located.value.length);
    }
  }

  lemma MapsStep(src: Source, entry: Entry, base: U64, n: nat)
    requires ValidSource(src) && n < |entry.extents|
    ensures Maps(src, entry, base, n + 1).Some? <==>
              && Maps(src, entry, base, n).Some? && LocateInFile(src, entry, base, n).Some?
              && EndOf(Maps(src, entry, base, n).value, n) + LocateInFile(src, entry, base, n).value.length <= U64_MAX
    ensures Maps(src, entry, base, n + 1).Some? ==>
              var before := Maps(src, entry, base, n).value;
              var all := Maps(src, entry, base, n + 1).value;
              var range := LocateInFile(src, entry, base, n).value;
              && Tiles(src.file, before) && Tiles(src.file, all) && range.offset + range.length <= |src.file|
              && EndOf(all, n + 1) == EndOf(before, n) + range.length
              && Covered(src.file, all, n + 1) == Covered(src.file, before, n) + RangeSlice(src.file, range)
  {
    if Maps(src, entry, base, n + 1).Some? {
      var before, all := Maps(src, entry, base, n).value, Maps(src, entry, base, n + 1).value;
      MapsTile(src, entry, base, n);
      MapsTile(src, entry, base, n + 1);
      LocatedInFile(src, entry, base, n);
      hide LocateInFile;
      assert before == all[..n];
      CoveredPrefix(src.file, before, all, n);
    }
  }

  /** One more extent. */
  lemma FlattenOneMore(env: Env, loc: Location, n: nat, fuel: nat)
    requires n < |loc.extents| <= U32_MAX && fuel > 0
    ensures FlattenExtents(env, loc, n + 1, fuel).Some? <==>
              && FlattenExtents(env, loc, n, fuel).Some? && ExtentBytes(env, loc, n, fuel).Some?
              && |FlattenExtents(env, loc, n, fuel).value| + |ExtentBytes(env, loc, n, fuel).value| <= U64_MAX
    ensures FlattenExtents(env, loc, n + 1, fuel).Some? ==>
              FlattenExtents(env, loc, n + 1, fuel).value == FlattenExtents(env, loc, n, fuel).value
                  + ExtentBytes(env, loc, n, fuel).value
  {
    hide ExtentBytes;
  }

  /** The layout of a plain item covers the bytes that its extents flatten to. */
  lemma {:induction false} PlainExtentsAgree(env: Env, src: Source, entries: seq<Entry>, entry: Entry, loc: Location,
                                             base: U64, n: nat, fuel: nat)
    requires SameItems(env, src, entries) && StoredAs(entry, loc) && entry.constructionMethod < 2
    requires BaseInFile(src, entry) == Some(base) && n <= |entry.extents| && fuel > 0
    ensures Maps(src, entry, base, n).Some? <==> FlattenExtents(env, loc, n, fuel).Some?
    ensures Maps(src, entry, base, n).Some? ==>
              var maps := Maps(src, entry, base, n).value;
              && Tiles(src.file, maps) && Covered(src.file, maps, n) == FlattenExtents(env, loc, n, fuel).value
  {
    if n > 0 {
      PlainExtentsAgree(env, src, entries, entry, loc, base, n - 1, fuel);
      PlainExtentAgrees(env, src, entries, entry, loc, base, n - 1, fuel);
      MapsStep(src, entry, base, n - 1);
      FlattenOneMore(env, loc, n - 1, fuel);
      hide FlattenExtents;
      assert loc.extents == entry.extents;
      hide StoredAs;
      hide SameItems;
      hide BaseInFile;
      hide EndOf;
      hide RangeSlice;
      hide Maps;
      hide LocateInFile;
      hide ExtentBytes;
      hide Tiles;
      hide Covered;
    }
  }

  lemma {:induction false} LengthsAddUp(env: Env, entry: Entry, loc: Location, n: nat, fuel: nat)
    requires StoredAs(entry, loc) && n <= |entry.extents| && fuel > 0 && FlattenExtents(env, loc, n, fuel).Some?
    ensures |FlattenExtents(env, loc, n, fuel).value| == SumLengths(entry.extents, n)
  {
    if n > 0 {
      LengthsAddUp(env, entry, loc, n - 1, fuel);
      hide SourceBytes;
    }
  }

  /** A stored entry has the bytes of its extents, if it has any and they can be counted. */
  lemma StoredItemBytes(env: Env, entry: Entry, loc: Location, fuel: nat)
    requires StoredAs(entry, loc) && entry.constructionMethod <= 2 && fuel > 0
    requires LookupLocation(env.props.locations, entry.itemId) == Some(loc)
    ensures Flatten(env, entry.itemId, fuel)
            == if entry.extents == [] || SumLengths(entry.extents, |entry.extents|) > U64_MAX then None
               else FlattenExtents(env, loc, |loc.extents|, fuel)
  {
    hide FlattenExtents;
    hide SumLengths;
  }

  lemma NoBaseNoBytes(env: Env, src: Source, entries: seq<Entry>, entry: Entry, loc: Location, fuel: nat)
    requires SameItems(env, src, entries) && StoredAs(entry, loc) && entry.constructionMethod < 2
    requires BaseInFile(src, entry).None? && entry.extents != [] && fuel > 0
    ensures FlattenExtents(env, loc, |loc.extents|, fuel).None?
  {
    if FlattenExtents(env, loc, |loc.extents|, fuel).Some? {
      PrefixFlattens(env, loc, 0, |loc.extents|, fuel);
    }
  }

  /** The layout of a plain item with extents is valid exactly if the item has bytes, and covers them. */
  lemma PlainItemsAgree(env: Env, src: Source, entries: seq<Entry>, entry: Entry, loc: Location, fuel: nat)
    requires SameItems(env, src, entries) && StoredAs(entry, loc) && entry.constructionMethod < 2 && fuel > 0
    requires LookupLocation(env.props.locations, entry.itemId) == Some(loc)
    ensures LayoutMaps(src, entry).Some? && entry.extents != [] <==> Flatten(env, entry.itemId, fuel).Some?
    ensures LayoutMaps(src, entry).Some? && entry.extents != [] ==>
              var maps := LayoutMaps(src, entry).value;
              Tiles(src.file, maps) && Covered(src.file, maps, |maps|) == Flatten(env, entry.itemId, fuel).value
  {
    var n := |entry.extents|;
    var base := BaseInFile(src, entry);
    if base.None? {
      if n > 0 {
        NoBaseNoBytes(env, src, entries, entry, loc, fuel);
      }
    } else {
      PlainExtentsAgree(env, src, entries, entry, loc, base.value, n, fuel);
      if FlattenExtents(env, loc, n, fuel).Some? {
        LengthsAddUp(env, entry, loc, n, fuel);
      }
    }
    StoredItemBytes(env, entry, loc, fuel);
    hide Flatten;
    hide StoredAs;
    hide FlattenExtents;
    hide Maps;
    hide SumLengths;
    hide SameItems;
    hide BaseInFile;
  }

  // ----- items over plain items -------------------------------------------------------------------------------

  /** The tables that the scanner builds. */
  ghost predicate Collected(src: Source, entries: seq<Entry>, rows: seq<RefRow>, items: seq<U32>, ids: seq<U32>,
                            t: Tables) {
    && ValidSource(src) && RefTable(rows, items, |rows|, t.refs)
    && (forall id :: IsTarget(t.refs, |t.refs|, id) ==> id in ids)
    && LayoutTable(src, entries, |entries|, ids, t.layouts)
  }

  /** Both sides have the entry in full. */
  ghost predicate Stored(env: Env, entries: seq<Entry>, entry: Entry) {
    exists i :: 0 <= i < |entries| && i < |env.props.locations| && entries[i] == entry
        && StoredAs(entry, env.props.locations[i])
  }

  /** The item is built from plain items, stored in full like itself; what it refers to may also be missing. */
  ghost predicate OverPlainItems(env: Env, entries: seq<Entry>, rows: seq<RefRow>, items: seq<U32>, entry: Entry) {
    && Stored(env, entries, entry) && entry.constructionMethod == 2 && entry.itemId in items
    && forall e :: 0 <= e < |entries| && TargetIn(rows, [entry.itemId], |rows|, entries[e].itemId) ==>
                     entries[e].constructionMethod < 2 && Stored(env, entries, entries[e])
  }

  lemma CollectedSound(src: Source, entries: seq<Entry>, rows: seq<RefRow>, items: seq<U32>, ids: seq<U32>, t: Tables)
    requires Collected(src, entries, rows, items, ids, t)
    ensures SoundTables(src, t)
  {
    TableIsSound(src, entries, ids, t);
  }

  /** A target of the item is among the referenced ones. */
  lemma TargetIsReferenced(src: Source, entries: seq<Entry>, rows: seq<RefRow>, items: seq<U32>, ids: seq<U32>,
                           t: Tables, id: U32, index: U64)
    requires Collected(src, entries, rows, items, ids, t) && LookupReference(t.refs, id, index).Some?
    ensures LookupReference(t.refs, id, index).value in ids
    ensures TargetIn(rows, [id], |rows|, LookupReference(t.refs, id, index).value)
  {
    var k := FindRefs(t.refs, id).value;
    var target := LookupReference(t.refs, id, index).value;
    assert target in t.refs[k].toIds;
    assert IsTarget(t.refs, |t.refs|, target);
    StoredNonzero(rows, |rows|, id);
    assert id in [id];
  }

  /** An extent over another item, with a written length, is a slice of its bytes. */
  lemma ExtentOverItem(env: Env, loc: Location, e: nat, fuel: nat, target: Option<U32>)
    requires e < |loc.extents| <= U32_MAX && fuel > 1 && loc.constructionMethod == 2 && loc.extents[e].length != 0
    requires target == ReferenceTarget(env.props, loc.itemId, ReferenceIndex(env.props, loc, e))
    ensures var start, length := loc.baseOffset + loc.extents[e].offset, loc.extents[e].length;
            ExtentBytes(env, loc, e, fuel)
            == if target.None? then None else CutFrom(Flatten(env, target.value, fuel - 1), start, length)
  {
    hide Flatten;
    hide ReferenceTarget;
  }

  ghost function CutFrom(bytes: Option<seq<Byte>>, start: nat, length: nat): Option<seq<Byte>> {
    if bytes.None? || start > U64_MAX || start + length > |bytes.value| then None
    else Some(bytes.value[start..start + length])
  }

  /** The scanner cuts it from what the layout of the item covers. */
  lemma PartOverItem(src: Source, t: Tables, entry: Entry, e: nat, target: Option<U32>)
    requires SoundTables(src, t) && e < |entry.extents| <= U32_MAX && entry.extents[e].length != 0
    requires target == LookupReference(t.refs, entry.itemId, ScanIndex(src, entry, e))
    ensures var start, length := entry.baseOffset + entry.extents[e].offset, entry.extents[e].length;
            ScannedPart(src, t, entry, e)
            == if target.None? then None else CutFrom(LayoutBytes(src, t, target.value), start, length)
  {
    if target.Some? && FindLayout(t.layouts, target.value).Some? {
      var layout := t.layouts[FindLayout(t.layouts, target.value).value];
      assert layout.valid ==> |Covered(src.file, layout.maps, |layout.maps|)| == layout.totalLength;
    }
    hide Covered;
    hide Tiles;
    hide FindLayout;
    hide LookupReference;
  }

  /** What a valid layout covers, if the item has one. */
  ghost function LayoutBytes(src: Source, t: Tables, target: U32): Option<seq<Byte>>
    requires SoundTables(src, t)
  {
    var k := FindLayout(t.layouts, target);
    if k.None? || !t.layouts[k.value].valid then None
    else
      var layout := t.layouts[k.value];
      assert SoundLayout(src.file, layout);
      Some(Covered(src.file, layout.maps, |layout.maps|))
  }

  /** Extent `e` is a slice of the same bytes on both sides. */
  lemma ExtentsAgree(env: Env, src: Source, entries: seq<Entry>, rows: seq<RefRow>, items: seq<U32>, ids: seq<U32>,
                     t: Tables,
                     entry: Entry, loc: Location, e: nat, fuel: nat)
    requires SameItems(env, src, entries) && SameReferences(env, rows, items)
             && Collected(src, entries, rows, items, ids, t)
    requires OverPlainItems(env, entries, rows, items, entry) && StoredAs(entry, loc) && e < |entry.extents| && fuel > 1
    ensures SoundTables(src, t)
    ensures ScannedPart(src, t, entry, e) == ExtentBytes(env, loc, e, fuel)
    ensures ExtentBytes(env, loc, e, fuel).Some? ==> |ExtentBytes(env, loc, e, fuel).value| == entry.extents[e].length
  {
    CollectedSound(src, entries, rows, items, ids, t);
    var index := ScanIndex(src, entry, e);
    ReferencesAgree(env, rows, items, t.refs, entry.itemId, index);
    assert ReferenceIndex(env.props, loc, e) == index && loc.extents == entry.extents && loc.constructionMethod == 2;
    assert loc.baseOffset == entry.baseOffset && loc.itemId == entry.itemId && entry.extents[e].length != 0;
    var target := LookupReference(t.refs, entry.itemId, index);
    hide *;
    PartOverItem(src, t, entry, e, target);
    ExtentOverItem(env, loc, e, fuel, target);
    if target.Some? {
      TargetIsReferenced(src, entries, rows, items, ids, t, entry.itemId, index);
      TargetsAgree(env, src, entries, rows, items, ids, t, entry, target.value, fuel - 1);
      CutsAgree(LayoutBytes(src, t, target.value), Flatten(env, target.value, fuel - 1),
                entry.baseOffset + entry.extents[e].offset, entry.extents[e].length);
    }
  }

  /** Where one side has nothing, the other has nothing either, or no bytes to cut from. */
  ghost predicate AlikeOrEmpty(layout: Option<seq<Byte>>, flat: Option<seq<Byte>>) {
    (flat.Some? ==> layout == flat) && (flat.None? && layout.Some? ==> layout.value == [])
  }

  lemma CutsAgree(layout: Option<seq<Byte>>, flat: Option<seq<Byte>>, start: nat, length: nat)
    requires AlikeOrEmpty(layout, flat) && length > 0
    ensures CutFrom(layout, start, length) == CutFrom(flat, start, length)
    ensures CutFrom(flat, start, length).Some? ==> |CutFrom(flat, start, length).value| == length
  {
  }

  /** What the item refers to is stored alike on both sides. */
  lemma TargetIsStored(env: Env, src: Source, entries: seq<Entry>, rows: seq<RefRow>, items: seq<U32>, entry: Entry,
                       target: U32)
    returns (loc: Location)
    requires SameItems(env, src, entries) && OverPlainItems(env, entries, rows, items, entry)
    requires TargetIn(rows, [entry.itemId], |rows|, target) && LastEntry(entries, |entries|, target).Some?
    ensures var last := LastEntry(entries, |entries|, target).value;
            && last.itemId == target && last.constructionMethod < 2 && StoredAs(last, loc)
            && LookupLocation(env.props.locations, target) == Some(loc)
  {
    TablesFindSame(env, src, entries, target);
    var i :| 0 <= i < |entries| && LastEntry(entries, |entries|, target) == Some(entries[i])
             && LookupLocation(env.props.locations, target) == Some(env.props.locations[i]);
    loc := env.props.locations[i];
    LookupFinds(env.props.locations, target);
    assert entries[i].itemId == target && Stored(env, entries, entries[i]);
    hide StoredAs;
    hide TargetIn;
  }

  lemma {:induction false} LookupFinds(locations: seq<Location>, id: U32)
    ensures LookupLocation(locations, id).Some? ==> LookupLocation(locations, id).value.itemId == id
  {
    if locations != [] {
      LookupFinds(locations[1..], id);
    }
  }

  /** A target has a valid layout with extents exactly if it has bytes, and these are what the layout covers. */
  lemma TargetsAgree(env: Env, src: Source, entries: seq<Entry>, rows: seq<RefRow>, items: seq<U32>, ids: seq<U32>,
                     t: Tables,
                     entry: Entry, target: U32, fuel: nat)
    requires SameItems(env, src, entries) && Collected(src, entries, rows, items, ids, t)
             && OverPlainItems(env, entries, rows, items, entry)
    requires target in ids && TargetIn(rows, [entry.itemId], |rows|, target) && fuel > 0
    ensures SoundTables(src, t) && AlikeOrEmpty(LayoutBytes(src, t, target), Flatten(env, target, fuel))
  {
    CollectedSound(src, entries, rows, items, ids, t);
    TablesFindSame(env, src, entries, target);
    var last := LastEntry(entries, |entries|, target);
    if last.Some? {
      LastIsOnly(entries, |entries|, target);
      var loc := TargetIsStored(env, src, entries, rows, items, entry, target);
      PlainItemsAgree(env, src, entries, last.value, loc, fuel);
    }
    hide SameItems;
    hide StoredAs;
    hide LayoutMaps;
    hide RefTable;
    hide TargetIn;
    hide IsTarget;
    hide FindLayout;
  }

  /** The same bytes, `size` of them, which the resolver has only if `size` fits 64 bits. */
  ghost predicate SameBytes(flat: Option<seq<Byte>>, scanned: Option<seq<Byte>>, size: nat) {
    && (flat.Some? <==> scanned.Some? && size <= U64_MAX) && (scanned.Some? ==> |scanned.value| == size)
    && (flat.Some? ==> flat == scanned)
  }

  lemma JoinedSame(flat: Option<seq<Byte>>, scanned: Option<seq<Byte>>, size: nat, part: Option<seq<Byte>>, length: nat,
                   longer: Option<seq<Byte>>)
    requires SameBytes(flat, scanned, size) && (part.Some? ==> |part.value| == length)
    requires longer.Some? <==> flat.Some? && part.Some? && |flat.value| + |part.value| <= U64_MAX
    requires longer.Some? ==> longer == Joined(flat, part)
    ensures SameBytes(longer, Joined(scanned, part), size + length)
  {
  }

  lemma {:induction false} ScannedAgrees(env: Env, src: Source, entries: seq<Entry>, rows: seq<RefRow>, items: seq<U32>,
                                         ids: seq<U32>, t: Tables,
                                         entry: Entry, loc: Location, n: nat, fuel: nat)
    requires SameItems(env, src, entries) && SameReferences(env, rows, items)
             && Collected(src, entries, rows, items, ids, t)
    requires OverPlainItems(env, entries, rows, items, entry) && StoredAs(entry, loc) && n <= |entry.extents|
             && fuel > 1
    ensures SoundTables(src, t)
    ensures SameBytes(FlattenExtents(env, loc, n, fuel), ScannedBytes(src, t, entry, n), SumLengths(entry.extents, n))
  {
    CollectedSound(src, entries, rows, items, ids, t);
    assert loc.extents == entry.extents;
    if n > 0 {
      ScannedAgrees(env, src, entries, rows, items, ids, t, entry, loc, n - 1, fuel);
      ExtentsAgree(env, src, entries, rows, items, ids, t, entry, loc, n - 1, fuel);
      FlattenOneMore(env, loc, n - 1, fuel);
      hide FlattenExtents;
      hide ScannedPart;
      hide ExtentBytes;
      hide SoundTables;
      hide StoredAs;
      hide SameItems;
      hide SameReferences;
      hide Collected;
      hide OverPlainItems;
      hide SameBytes;
      var part := ExtentBytes(env, loc, n - 1, fuel);
      var flat, scanned := FlattenExtents(env, loc, n - 1, fuel), ScannedBytes(src, t, entry, n - 1);
      JoinedSame(flat, scanned, SumLengths(entry.extents, n - 1), part, entry.extents[n - 1].length,
                 FlattenExtents(env, loc, n, fuel));
    }
  }

  lemma EntryIsStored(env: Env, src: Source, entries: seq<Entry>, entry: Entry) returns (loc: Location)
    requires SameItems(env, src, entries) && Stored(env, entries, entry)
    ensures LookupLocation(env.props.locations, entry.itemId) == Some(loc) && StoredAs(entry, loc)
  {
    var i :| 0 <= i < |entries| && i < |env.props.locations| && entries[i] == entry
        && StoredAs(entry, env.props.locations[i]);
    loc := env.props.locations[i];
    FirstIsOnly(env.props.locations, i);
  }

  /**
   * The scanner's bytes of an item over plain items are the bytes of the item; they exist for one
   * side exactly if they do for the other and their number fits 64 bits.
   */
  lemma ItemsAgree(env: Env, src: Source, entries: seq<Entry>, rows: seq<RefRow>, items: seq<U32>, ids: seq<U32>,
                   t: Tables, entry: Entry, fuel: nat)
    requires SameItems(env, src, entries) && SameReferences(env, rows, items)
             && Collected(src, entries, rows, items, ids, t)
    requires OverPlainItems(env, entries, rows, items, entry) && fuel > 1
    ensures SoundTables(src, t) && |entry.extents| <= MAX_EXTENT_RECORDS
    ensures var n := |entry.extents|;
            var bytes := Flatten(env, entry.itemId, fuel);
            && (bytes.Some? <==>
                 && n > 0 && ScannedBytes(src, t, entry, n).Some?
                 && SumLengths(entry.extents, n) <= U64_MAX)
            && (bytes.Some? ==> bytes == ScannedBytes(src, t, entry, n))
  {
    var loc := EntryIsStored(env, src, entries, entry);
    ScannedAgrees(env, src, entries, rows, items, ids, t, entry, loc, |entry.extents|, fuel);
    StoredItemBytes(env, entry, loc, fuel);
    assert |entry.extents| <= MAX_EXTENT_RECORDS;
    hide SameItems;
    hide SameReferences;
    hide Collected;
    hide OverPlainItems;
    hide StoredAs;
    hide SumLengths;
    hide ScannedBytes;
    hide FlattenExtents;
    hide Flatten;
    hide SoundTables;
  }

  /** Everything the agreement asks of the inputs of the two sides. */
  ghost predicate Comparable(env: Env, src: Source, entries: seq<Entry>, rows: seq<RefRow>, items: seq<U32>,
                             entry: Entry) {
    SameItems(env, src, entries) && SameReferences(env, rows, items) && OverPlainItems(env, entries, rows, items, entry)
  }

  /** What the item refers to has few extents. */
  lemma SlicesAreSmall(env: Env, src: Source, entries: seq<Entry>, rows: seq<RefRow>, items: seq<U32>, ids: seq<U32>,
                       t: Tables, entry: Entry)
    requires SameItems(env, src, entries) && Collected(src, entries, rows, items, ids, t)
    requires OverPlainItems(env, entries, rows, items, entry) && |entry.extents| <= U32_MAX
    ensures SlicesWithin(src, t, entry, MAX_EXTENT_RECORDS)
  {
    forall e | 0 <= e < |entry.extents| && SliceOfExtent(src, t, entry, e).Some?
      ensures |SliceOfExtent(src, t, entry, e).value.layout.maps| <= MAX_EXTENT_RECORDS
    {
      var index := ScanIndex(src, entry, e);
      var target := LookupReference(t.refs, entry.itemId, index).value;
      TargetIsReferenced(src, entries, rows, items, ids, t, entry.itemId, index);
      var k := FindLayout(t.layouts, target).value;
      var loc := TargetIsStored(env, src, entries, rows, items, entry, target);
      assert LayoutOf(src, t.layouts[k], LastEntry(entries, |entries|, t.layouts[k].itemId).value);
    }
  }

  lemma {:induction false} EveryTargetReferenced(env: Env, rows: seq<RefRow>, items: seq<U32>, refs: seq<ItemRefs>,
                                                 ids: seq<U32>, id: U32)
    requires SameReferences(env, rows, items) && RefTable(rows, items, |rows|, refs)
    requires Referenced(refs, ids) && IsTarget(refs, |refs|, id)
    ensures id in ids
  {
    if |ids| == MAX_REFERENCED_IDS {
      forall x | IsTarget(refs, |refs|, x) ensures x in TargetSet(rows, items) {
        TargetComesFromRow(rows, items, refs, x);
      }
      DistinctCovers(ids, TargetSet(rows, items));
    }
  }

  lemma TargetComesFromRow(rows: seq<RefRow>, items: seq<U32>, refs: seq<ItemRefs>, id: U32)
    requires RefTable(rows, items, |rows|, refs) && IsTarget(refs, |refs|, id)
    ensures id in TargetSet(rows, items)
  {
    var k :| 0 <= k < |refs| && id in refs[k].toIds && id != 0;
    StoredNonzero(rows, |rows|, refs[k].fromId);
    assert TargetIn(rows, items, |rows|, id);
    var r :| 0 <= r < |rows| && rows[r].refType == Iloc() && rows[r].fromItem in items && id in rows[r].toItems;
    var j :| 0 <= j < |rows[r].toItems| && rows[r].toItems[j] == id;
  }

  /** The tables were built from the rows and the entries, whatever ids were collected on the way. */
  ghost predicate Built(src: Source, entries: seq<Entry>, rows: seq<RefRow>, items: seq<U32>, t: Tables) {
    && SoundTables(src, t) && RefTable(rows, items, |rows|, t.refs)
    && exists ids: seq<U32> :: Referenced(t.refs, ids) && LayoutTable(src, entries, |entries|, ids, t.layouts)
  }

  /** Distinct targets, all of them unless there are too many. */
  ghost predicate Referenced(refs: seq<ItemRefs>, ids: seq<U32>) {
    && |ids| <= MAX_REFERENCED_IDS && (forall i, j :: 0 <= i < j < |ids| ==> ids[i] != ids[j])
    && (forall id :: id in ids ==> IsTarget(refs, |refs|, id))
    && (|ids| < MAX_REFERENCED_IDS ==> forall id :: IsTarget(refs, |refs|, id) ==> id in ids)
  }

  method CollectTables(src: Source, entries: seq<Entry>, rows: seq<RefRow>, items: seq<U32>) returns (t: Tables)
    requires ValidSource(src)
    ensures Built(src, entries, rows, items, t)
  {
    var refs := CollectRefs(rows, items);
    var ids := CollectReferenced(refs);
    var layouts := CollectLayouts(src, entries, ids);
    t := Tables(refs, layouts);
    TableIsSound(src, entries, ids, t);
    hide RefTable;
    hide LayoutTable;
    hide IsTarget;
    hide SoundTables;
    assert Referenced(t.refs, ids);
  }

  /** With such tables, the bytes of the scanner are those of the item, and it finds parts for them. */
  lemma TablesAgree(env: Env, src: Source, entries: seq<Entry>, rows: seq<RefRow>, items: seq<U32>, t: Tables,
                    entry: Entry, fuel: nat)
    requires Comparable(env, src, entries, rows, items, entry) && Built(src, entries, rows, items, t) && fuel > 1
    ensures SoundTables(src, t) && |entry.extents| <= MAX_EXTENT_RECORDS
    ensures var n := |entry.extents|;
            var bytes := Flatten(env, entry.itemId, fuel);
            && |ItemParts(src, t, entry, n)| <= MAX_RESOLVED_PARTS
            && (bytes.Some? <==>
                 && n > 0 && ScannedBytes(src, t, entry, n).Some?
                 && SumLengths(entry.extents, n) <= U64_MAX)
            && (bytes.Some? ==> bytes == ScannedBytes(src, t, entry, n))
  {
    assert ValidSource(src);
    hide Flatten;
    hide RefTable;
    hide LayoutTable;
    hide IsTarget;
    hide SoundTables;
    hide ScannedBytes;
    hide SumLengths;
    hide ItemParts;
    hide SameItems;
    hide SameReferences;
    hide OverPlainItems;
    var ids: seq<U32> :| Referenced(t.refs, ids) && LayoutTable(src, entries, |entries|, ids, t.layouts);
    forall id | IsTarget(t.refs, |t.refs|, id) ensures id in ids {
      EveryTargetReferenced(env, rows, items, t.refs, ids, id);
    }
    CollectedBuilt(src, entries, rows, items, ids, t);
    ItemsAgree(env, src, entries, rows, items, ids, t, entry, fuel);
    SlicesAreSmall(env, src, entries, rows, items, ids, t, entry);
    FewParts(src, t, entry, MAX_EXTENT_RECORDS, |entry.extents|);
  }

  lemma CollectedBuilt(src: Source, entries: seq<Entry>, rows: seq<RefRow>, items: seq<U32>, ids: seq<U32>, t: Tables)
    requires Built(src, entries, rows, items, t) && LayoutTable(src, entries, |entries|, ids, t.layouts)
    requires forall id :: IsTarget(t.refs, |t.refs|, id) ==> id in ids
    ensures Collected(src, entries, rows, items, ids, t)
  {
    hide RefTable;
    hide LayoutTable;
    hide IsTarget;
  }

  /** The scanner's way to the file ranges of an item, from the parsed tables. */
  method ScanDerivedItem(src: Source, entries: seq<Entry>, rows: seq<RefRow>, items: seq<U32>, entry: Entry,
                         ghost env: Env)
    returns (parts: Option<seq<FileRange>>)
    requires ValidSource(src) && |entry.extents| <= U32_MAX
    ensures parts.Some? ==> RangesInFile(src.file, parts.value)
    ensures Comparable(env, src, entries, rows, items, entry) ==>
              && (Flatten(env, entry.itemId, MAX_RESOLVE_PATH).Some?
                  <==> parts.Some? && SumLengths(entry.extents, |entry.extents|) <= U64_MAX)
              && (Flatten(env, entry.itemId, MAX_RESOLVE_PATH).Some?
                  ==> RangeBytes(src.file, parts.value) == Flatten(env, entry.itemId, MAX_RESOLVE_PATH).value)
  {
    var t := CollectTables(src, entries, rows, items);
    assert SoundTables(src, t);
    hide *;
    parts := ResolveItem(src, t, entry);
    if Comparable(env, src, entries, rows, items, entry) {
      TablesAgree(env, src, entries, rows, items, t, entry, MAX_RESOLVE_PATH);
    }
    PartsAreBytes(src, t, entry, parts);
  }

  lemma PartsAreBytes(src: Source, t: Tables, entry: Entry, parts: Option<seq<FileRange>>)
    requires SoundTables(src, t) && |entry.extents| <= U32_MAX
    requires parts.Some? ==> PartsFor(src, t, entry, |entry.extents|, parts.value)
    ensures parts.Some? ==>
              && RangesInFile(src.file, parts.value)
              && ScannedBytes(src, t, entry, |entry.extents|) == Some(RangeBytes(src.file, parts.value))
  {
    hide ScannedBytes;
    hide RangeBytes;
  }

  lemma TableIsSound(src: Source, entries: seq<Entry>, ids: seq<U32>, t: Tables)
    requires ValidSource(src) && LayoutTable(src, entries, |entries|, ids, t.layouts)
    ensures SoundTables(src, t)
  {
    forall k | 0 <= k < |t.layouts| ensures SoundLayout(src.file, t.layouts[k]) {
      assert LayoutOf(src, t.layouts[k], LastEntry(entries, |entries|, t.layouts[k].itemId).value);
    }
  }
}
