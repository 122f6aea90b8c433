/** The file ranges that the scanner emits for an item built from other items (construction method 2). */
module ScannerParts {
  import opened Bytes
  import opened ItemData
  import opened ScannerLayouts
  import opened ScannerItems

  /** What the scanner knows when it resolves an item. */
  datatype Tables = Tables(refs: seq<ItemRefs>, layouts: seq<Layout>)

  ghost predicate SoundTables(src: Source, t: Tables) {
    ValidSource(src) && forall k :: 0 <= k < |t.layouts| ==> SoundLayout(src.file, t.layouts[k])
  }

  /** The reference number of extent `e`: the written one, else its ordinal, else 1. */
  function ScanIndex(src: Source, entry: Entry, e: nat): U64
    requires e < |entry.extents| <= U32_MAX
  {
    if src.indexSize > 0 then entry.extents[e].index
    else if |entry.extents| > 1 then e + 1
    else 1
  }

  /** A slice of a source item. */
  datatype Slice = Slice(layout: Layout, offset: U64, length: U64)

  /** The slice that extent `e` takes from the item it refers to. */
  function SliceOfExtent(src: Source, t: Tables, entry: Entry, e: nat): Option<Slice>
    requires e < |entry.extents| <= U32_MAX
  {
    match LookupReference(t.refs, entry.itemId, ScanIndex(src, entry, e))
    case None => None
    case Some(target) =>
      match FindLayout(t.layouts, target)
      case None => None
      case Some(k) =>
        var layout := t.layouts[k];
        var start := entry.baseOffset + entry.extents[e].offset;
        if !layout.valid || start > U64_MAX then None
        else if entry.extents[e].length == 0 && src.lengthSize == 0 && |entry.extents| == 1 then
          (if start <= layout.totalLength then Some(Slice(layout, start, layout.totalLength - start)) else None)
        else Some(Slice(layout, start, entry.extents[e].length))
  }

  predicate Inside(s: Slice) { s.layout.valid && s.length > 0 && s.offset + s.length <= s.layout.totalLength }

  ghost function SliceBytes(src: Source, s: Slice): seq<Byte>
    requires SoundLayout(src.file, s.layout) && Inside(s)
  {
    Covered(src.file, s.layout.maps, |s.layout.maps|)[s.offset..s.offset + s.length]
  }

  /** What extent `e` contributes: a nonempty slice of a valid source item. */
  ghost function ScannedPart(src: Source, t: Tables, entry: Entry, e: nat): Option<seq<Byte>>
    requires SoundTables(src, t) && e < |entry.extents| <= U32_MAX
  {
    var s := SliceOfExtent(src, t, entry, e);
    if s.Some? && Inside(s.value) then Some(SliceBytes(src, s.value)) else None
  }

  function Joined(before: Option<seq<Byte>>, part: Option<seq<Byte>>): Option<seq<Byte>> {
    if before.None? || part.None? then None else Some(before.value + part.value)
  }

  /** The bytes of the first `n` extents. */
  ghost function ScannedBytes(src: Source, t: Tables, entry: Entry, n: nat): Option<seq<Byte>>
    requires SoundTables(src, t) && n <= |entry.extents| <= U32_MAX
  {
    if n == 0 then Some([]) else Joined(ScannedBytes(src, t, entry, n - 1), ScannedPart(src, t, entry, n - 1))
  }

  /** The parts are the bytes of the first `n` extents. */
  ghost predicate PartsFor(src: Source, t: Tables, entry: Entry, n: nat, parts: seq<FileRange>) {
    && SoundTables(src, t) && n <= |entry.extents| <= U32_MAX && RangesInFile(src.file, parts)
    && Some(RangeBytes(src.file, parts)) == ScannedBytes(src, t, entry, n)
  }

  lemma NoPartsYet(src: Source, t: Tables, entry: Entry)
    requires SoundTables(src, t) && |entry.extents| <= U32_MAX
    ensures PartsFor(src, t, entry, 0, []) && ItemParts(src, t, entry, 0) == []
  {
  }

  lemma MoreParts(src: Source, t: Tables, entry: Entry, n: nat, parts: seq<FileRange>, more: seq<FileRange>)
    requires n < |entry.extents| && PartsFor(src, t, entry, n, parts) && RangesInFile(src.file, more)
    requires var s := SliceOfExtent(src, t, entry, n);
             && s.Some? && Inside(s.value)
             && RangeBytes(src.file, more) == SliceBytes(src, s.value)
    ensures PartsFor(src, t, entry, n + 1, parts + more)
  {
    RangeBytesJoin(src.file, parts, more);
    hide RangeBytes;
    hide SliceOfExtent;
    hide SliceBytes;
    hide Inside;
  }

  /** The parts for one extent: exactly if it is a nonempty slice of a valid source item. */
  method ResolveExtent(src: Source, t: Tables, entry: Entry, e: nat) returns (r: Option<seq<FileRange>>)
    requires SoundTables(src, t) && e < |entry.extents| <= U32_MAX
    ensures var s := SliceOfExtent(src, t, entry, e);
            && (r.Some? <==> s.Some? && Inside(s.value))
            && (r.Some? ==> r.value == PartsOfSlice(s.value) != [] && RangesInFile(src.file, r.value)
                            && RangeBytes(src.file, r.value) == SliceBytes(src, s.value))
  {
    var s := SliceOfExtent(src, t, entry, e);
    if s.None? {
      return None;
    }
    r := ResolveSlice(s.value.layout, s.value.offset, s.value.length, src.file);
  }

  /** The parts of the first `n` extents; extents without bytes have none. */
  function ItemParts(src: Source, t: Tables, entry: Entry, n: nat): seq<FileRange>
    requires n <= |entry.extents| <= U32_MAX
  {
    if n == 0 then []
    else
      var s := SliceOfExtent(src, t, entry, n - 1);
      ItemParts(src, t, entry, n - 1) + if s.Some? && Inside(s.value) then PartsOfSlice(s.value) else []
  }

  function PartsOfSlice(s: Slice): (parts: seq<FileRange>)
    ensures |parts| <= |s.layout.maps|
  {
    SliceParts(s.layout.maps, s.offset, s.offset + s.length, |s.layout.maps|)
  }

  /** The items that extents of the entry refer to have layouts of at most `bound` maps. */
  ghost predicate SlicesWithin(src: Source, t: Tables, entry: Entry, bound: nat)
    requires |entry.extents| <= U32_MAX
  {
    forall e :: 0 <= e < |entry.extents| && SliceOfExtent(src, t, entry, e).Some? ==>
                  |SliceOfExtent(src, t, entry, e).value.layout.maps| <= bound
  }

  /** Few extents over items of few extents have few parts. */
  lemma {:induction false} FewParts(src: Source, t: Tables, entry: Entry, bound: nat, n: nat)
    requires n <= |entry.extents| <= U32_MAX && SlicesWithin(src, t, entry, bound)
    ensures |ItemParts(src, t, entry, n)| <= n * bound
  {
    if n > 0 {
      hide SliceOfExtent;
      hide PartsOfSlice;
      hide Inside;
      FewParts(src, t, entry, bound, n - 1);
      assert n * bound == (n - 1) * bound + bound;
      if SliceOfExtent(src, t, entry, n - 1).Some? {
        assert |SliceOfExtent(src, t, entry, n - 1).value.layout.maps| <= bound;
      }
    }
  }

  /** The item has 1 to 64 extents, all of which have bytes, and at most 256 parts. */
  ghost predicate Resolvable(src: Source, t: Tables, entry: Entry)
    requires SoundTables(src, t) && |entry.extents| <= U32_MAX
  {
    var n := |entry.extents|;
    0 < n <= MAX_RESOLVED_EXTENTS && ScannedBytes(src, t, entry, n).Some?
        && |ItemParts(src, t, entry, n)| <= MAX_RESOLVED_PARTS
  }

  lemma SlicePartsAreBytes(src: Source, s: Slice)
    requires SoundLayout(src.file, s.layout) && Inside(s)
    ensures RangesInFile(src.file, PartsOfSlice(s)) && RangeBytes(src.file, PartsOfSlice(s)) == SliceBytes(src, s)
  {
    PartsAreSlice(src.file, s.layout.maps, s.offset, s.offset + s.length, |s.layout.maps|);
    hide RangeBytes;
  }

  /** The parts of extents that have bytes are these bytes. */
  lemma {:induction false} ItemPartsAreBytes(src: Source, t: Tables, entry: Entry, n: nat)
    requires SoundTables(src, t) && n <= |entry.extents| <= U32_MAX && ScannedBytes(src, t, entry, n).Some?
    ensures PartsFor(src, t, entry, n, ItemParts(src, t, entry, n))
  {
    if n == 0 {
      NoPartsYet(src, t, entry);
    } else {
      ItemPartsAreBytes(src, t, entry, n - 1);
      var s := SliceOfExtent(src, t, entry, n - 1);
      SlicePartsAreBytes(src, s.value);
      hide PartsFor;
      hide PartsOfSlice;
      hide SliceOfExtent;
      MoreParts(src, t, entry, n - 1, ItemParts(src, t, entry, n - 1), PartsOfSlice(s.value));
    }
  }

  lemma SomeParts(src: Source, t: Tables, entry: Entry, n: nat)
    requires SoundTables(src, t) && 0 < n <= |entry.extents| <= U32_MAX && ScannedBytes(src, t, entry, n).Some?
    ensures ItemParts(src, t, entry, n) != []
  {
    var s := SliceOfExtent(src, t, entry, n - 1).value;
    SlicePartsAreBytes(src, s);
    assert RangeBytes(src.file, []) == [];
    assert PartsOfSlice(s) != [];
    hide PartsOfSlice;
  }

  /** The parts of an item, exactly if it is resolvable; joined, they are its bytes. */
  method ResolveItem(src: Source, t: Tables, entry: Entry) returns (r: Option<seq<FileRange>>)
    requires SoundTables(src, t) && |entry.extents| <= U32_MAX
    ensures r.Some? <==> Resolvable(src, t, entry)
    ensures r.Some? ==>
              && r.value == ItemParts(src, t, entry, |entry.extents|) != []
              && PartsFor(src, t, entry, |entry.extents|, r.value)
  {
    var n := |entry.extents|;
    if n == 0 || n > MAX_RESOLVED_EXTENTS {
      return None;
    }
    NothingResolved(src, t, entry);
    hide *;
    var parts, allOk := [], true;
    var e := 0;
    while e < n
      invariant 0 <= e <= n && |parts| <= MAX_RESOLVED_PARTS && ResolvedTo(src, t, entry, e, parts, allOk)
    {
      parts, allOk := ResolveMore(src, t, entry, e, parts, allOk);
      e := e + 1;
    }
    FinalBytes(src, t, entry, parts, allOk);
    if !allOk || parts == [] {
      return None;
    }
    r := Some(parts);
  }

  /** Resolves one more extent; a part for which there is no room spoils the item. */
  method ResolveMore(src: Source, t: Tables, entry: Entry, e: nat, parts: seq<FileRange>, allOk: bool)
    returns (newParts: seq<FileRange>, newOk: bool)
    requires SoundTables(src, t) && e < |entry.extents| <= U32_MAX && ResolvedTo(src, t, entry, e, parts, allOk)
    requires |parts| <= MAX_RESOLVED_PARTS
    ensures |newParts| <= MAX_RESOLVED_PARTS && ResolvedTo(src, t, entry, e + 1, newParts, newOk)
  {
    hide *;
    var more := ResolveExtent(src, t, entry, e);
    ResolvedStep(src, t, entry, e, parts, more, allOk);
    newParts, newOk := parts, allOk;
    if more.None? {
      newOk := false;
    } else {
      var room := MAX_RESOLVED_PARTS - |parts|;
      if |more.value| > room {
        newOk := false;
        newParts := parts + more.value[..room];
      } else {
        newParts := parts + more.value;
      }
    }
  }

  /** What is resolved after `e` extents, or that it cannot be resolved. */
  ghost predicate ResolvedTo(src: Source, t: Tables, entry: Entry, e: nat, parts: seq<FileRange>, allOk: bool)
    requires SoundTables(src, t) && e <= |entry.extents| <= U32_MAX
  {
    if allOk then PartsFor(src, t, entry, e, parts) && parts == ItemParts(src, t, entry, e) && (e > 0 ==> parts != [])
    else ScannedBytes(src, t, entry, e).None? || |ItemParts(src, t, entry, e)| > MAX_RESOLVED_PARTS
  }

  lemma NothingResolved(src: Source, t: Tables, entry: Entry)
    requires SoundTables(src, t) && |entry.extents| <= U32_MAX
    ensures ResolvedTo(src, t, entry, 0, [], true)
  {
    NoPartsYet(src, t, entry);
  }

  lemma ResolvedStep(src: Source, t: Tables, entry: Entry, e: nat, parts: seq<FileRange>,
                     more: Option<seq<FileRange>>, allOk: bool)
    requires SoundTables(src, t) && e < |entry.extents| <= U32_MAX && ResolvedTo(src, t, entry, e, parts, allOk)
    requires |parts| <= MAX_RESOLVED_PARTS
    requires var s := SliceOfExtent(src, t, entry, e);
             && (more.Some? <==> s.Some? && Inside(s.value))
             && (more.Some? ==> more.value == PartsOfSlice(s.value) != [] && RangesInFile(src.file, more.value)
                                && RangeBytes(src.file, more.value) == SliceBytes(src, s.value))
    ensures more.None? ==> ResolvedTo(src, t, entry, e + 1, parts, false)
    ensures more.Some? && |more.value| <= MAX_RESOLVED_PARTS - |parts| ==>
              ResolvedTo(src, t, entry, e + 1, parts + more.value, allOk)
    ensures more.Some? && |more.value| > MAX_RESOLVED_PARTS - |parts| ==>
              ResolvedTo(src, t, entry, e + 1, parts + more.value[..MAX_RESOLVED_PARTS - |parts|], false)
  {
    StepBytes(src, t, entry, e, parts, more, allOk);
    hide ScannedBytes;
    hide ItemParts;
    hide PartsFor;
    hide SliceOfExtent;
    hide PartsOfSlice;
    hide SoundTables;
  }

  lemma StepBytes(src: Source, t: Tables, entry: Entry, e: nat, parts: seq<FileRange>, more: Option<seq<FileRange>>,
                  allOk: bool)
    requires SoundTables(src, t) && e < |entry.extents| <= U32_MAX
    requires allOk ==> PartsFor(src, t, entry, e, parts)
    requires var s := SliceOfExtent(src, t, entry, e);
             && (more.Some? <==> s.Some? && Inside(s.value))
             && (more.Some? ==> more.value == PartsOfSlice(s.value) != [] && RangesInFile(src.file, more.value)
                                && RangeBytes(src.file, more.value) == SliceBytes(src, s.value))
    ensures ItemParts(src, t, entry, e + 1) == ItemParts(src, t, entry, e) + if more.Some? then more.value else []
    ensures ScannedBytes(src, t, entry, e).None? ==> ScannedBytes(src, t, entry, e + 1).None?
    ensures more.None? ==> ScannedBytes(src, t, entry, e + 1).None?
    ensures allOk && more.Some? ==> PartsFor(src, t, entry, e + 1, parts + more.value)
  {
    if allOk && more.Some? {
      MoreParts(src, t, entry, e, parts, more.value);
    }
    hide SliceOfExtent;
  }

  lemma FinalBytes(src: Source, t: Tables, entry: Entry, parts: seq<FileRange>, allOk: bool)
    requires SoundTables(src, t) && 0 < |entry.extents| <= MAX_RESOLVED_EXTENTS && |parts| <= MAX_RESOLVED_PARTS
    requires ResolvedTo(src, t, entry, |entry.extents|, parts, allOk)
    ensures allOk <==> Resolvable(src, t, entry)
    ensures allOk ==>
              && parts == ItemParts(src, t, entry, |entry.extents|) != []
              && PartsFor(src, t, entry, |entry.extents|, parts)
  {
    hide SoundTables;
    hide ItemParts;
    hide SliceOfExtent;
  }
}
