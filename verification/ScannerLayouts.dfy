/**
 * The scanner's own view of an item: a layout that maps the bytes of the item to ranges of the file,
 * and the lookup of a slice in such a layout.
 */
module ScannerLayouts {
  import opened Bytes
  import opened ItemData

  const MAX_LAYOUT_EXTENTS := 64
  const MAX_SLICE_PARTS := 64

  datatype FileRange = FileRange(offset: nat, length: nat)

  datatype Idat = Idat(offset: U64, end: U64)

  /**
   * What the layouts of a file depend on: its bytes, its `idat` box, its data references (which of them
   * mean this file), and the widths of extent lengths and extent indices.
   */
  datatype Source = Source(file: seq<Byte>, idat: Option<Idat>, dataReferences: Option<seq<bool>>, lengthSize: nat,
                           indexSize: nat)

  predicate ValidSource(src: Source) {
    |src.file| <= SPAN_MAX && (src.idat.Some? ==> src.idat.value.offset <= src.idat.value.end)
  }

  /** An entry of the item location table as the scanner reads it. */
  datatype Entry = Entry(itemId: U32, constructionMethod: nat, dataReference: U16, baseOffset: U64,
                         extents: seq<Extent>)

  /** Where an extent lies in the bytes of the item and in the file. */
  datatype ExtentMap = ExtentMap(logicalBegin: U64, logicalEnd: U64, fileOffset: U64, fileLength: U64)

  datatype Layout = Layout(itemId: U32, valid: bool, totalLength: U64, maps: seq<ExtentMap>)

  // ----- what a layout is ------------------------------------------------------------------------

  /** Data reference 0 is this file; so is reference 1 if there is no table. */
  predicate SelfContained(src: Source, dataReference: U16) {
    if dataReference == 0 then true
    else match src.dataReferences
      case None => dataReference == 1
      case Some(table) => dataReference <= |table| && table[dataReference - 1]
  }

  /** Where the extents of an entry are counted from; construction method 2 has no place in the file. */
  function BaseInFile(src: Source, entry: Entry): Option<U64> {
    if !SelfContained(src, entry.dataReference) then None
    else if entry.constructionMethod == 0 then Some(entry.baseOffset)
    else if entry.constructionMethod == 1 && src.idat.Some? && src.idat.value.offset + entry.baseOffset <= U64_MAX then
      Some(src.idat.value.offset + entry.baseOffset)
    else None
  }

  /** The length of an extent; a single one without a length field reaches to the end of `idat`. */
  function ExtentLength(src: Source, entry: Entry, e: nat, fileOffset: nat): Option<nat>
    requires e < |entry.extents|
  {
    var length := entry.extents[e].length;
    if length == 0 && src.lengthSize == 0 && |entry.extents| == 1 then
      (if entry.constructionMethod == 1 && src.idat.Some? && fileOffset <= src.idat.value.end
       then Some(src.idat.value.end - fileOffset) else None)
    else Some(length)
  }

  /** The range of the file that extent `e` stands for. */
  function LocateInFile(src: Source, entry: Entry, base: U64, e: nat): Option<FileRange>
    requires e < |entry.extents|
  {
    var start := base + entry.extents[e].offset;
    if start > U64_MAX then None
    else match ExtentLength(src, entry, e, start)
      case None => None
      case Some(length) =>
        if start > |src.file| || length > |src.file| - start then None
        else if entry.constructionMethod == 1 && (src.idat.None? || start + length > src.idat.value.end) then None
        else Some(FileRange(start, length))
  }

  /** Where the first `n` maps end in the bytes of the item. */
  function EndOf(maps: seq<ExtentMap>, n: nat): U64
    requires n <= |maps|
  {
    if n == 0 then 0 else maps[n - 1].logicalEnd
  }

  /** The maps of the first `n` extents, if all of them lie in the file and their sizes add up without overflow. */
  function Maps(src: Source, entry: Entry, base: U64, n: nat): (r: Option<seq<ExtentMap>>)
    requires ValidSource(src) && n <= |entry.extents|
    ensures r.Some? ==> |r.value| == n
  {
    if n == 0 then Some([])
    else
      var before := Maps(src, entry, base, n - 1);
      var located := LocateInFile(src, entry, base, n - 1);
      if before.None? || located.None? then None
      else
        var begin := EndOf(before.value, n - 1);
        var range := located.value;
        if begin + range.length > U64_MAX then None
        else Some(before.value + [ExtentMap(begin, begin + range.length, range.offset, range.length)])
  }

  function LayoutMaps(src: Source, entry: Entry): Option<seq<ExtentMap>>
    requires ValidSource(src)
  {
    match BaseInFile(src, entry)
    case None => None
    case Some(base) => if |entry.extents| > MAX_LAYOUT_EXTENTS then None else Maps(src, entry, base, |entry.extents|)
  }

  /** Map `i` continues where the one before it ends, and lies in the file. */
  ghost predicate Fits(file: seq<Byte>, maps: seq<ExtentMap>, i: nat)
    requires i < |maps|
  {
    && maps[i].logicalBegin == EndOf(maps, i) && maps[i].logicalEnd == maps[i].logicalBegin + maps[i].fileLength
    && maps[i].fileOffset + maps[i].fileLength <= |file|
  }

  /** The maps tile the bytes of the item from 0 on, and lie in the file. */
  ghost predicate Tiles(file: seq<Byte>, maps: seq<ExtentMap>) {
    forall i :: 0 <= i < |maps| ==> Fits(file, maps, i)
  }

  lemma {:induction false} MapsTile(src: Source, entry: Entry, base: U64, n: nat)
    requires ValidSource(src) && n <= |entry.extents| && Maps(src, entry, base, n).Some?
    ensures Tiles(src.file, Maps(src, entry, base, n).value)
  {
    if n > 0 {
      MapsTile(src, entry, base, n - 1);
      var before, all := Maps(src, entry, base, n - 1).value, Maps(src, entry, base, n).value;
      hide LocateInFile;
      LocatedInFile(src, entry, base, n - 1);
      forall i | 0 <= i < n ensures Fits(src.file, all, i) {
        assert i < n - 1 ==> all[i] == before[i] && Fits(src.file, before, i);
        assert 0 < i ==> all[i - 1] == before[i - 1];
      }
    }
  }

  lemma LocatedInFile(src: Source, entry: Entry, base: U64, e: nat)
    requires e < |entry.extents| && LocateInFile(src, entry, base, e).Some?
    ensures var range := LocateInFile(src, entry, base, e).value; range.offset + range.length <= |src.file|
  {
  }

  // ----- building a layout ------------------------------------------------------------------------------

  method BuildLayout(src: Source, entry: Entry) returns (layout: Layout)
    requires ValidSource(src)
    ensures layout.itemId == entry.itemId && |layout.maps| <= |entry.extents|
            && (layout.valid <==> LayoutMaps(src, entry).Some?)
    ensures layout.valid ==>
              && Some(layout.maps) == LayoutMaps(src, entry) && Tiles(src.file, layout.maps)
              && layout.totalLength == EndOf(layout.maps, |layout.maps|)
  {
    var base := BaseInFile(src, entry);
    if base.None? {
      return Layout(entry.itemId, false, 0, []);
    }
    var n := |entry.extents|;
    var ok, maps, logicalOffset: U64 := true, [], 0;
    var e := 0;
    while e < n
      invariant |maps| <= e <= n && logicalOffset <= U64_MAX
      invariant ok ==>
                  && e <= MAX_LAYOUT_EXTENTS && Maps(src, entry, base.value, e) == Some(maps)
                  && logicalOffset == EndOf(maps, e)
      invariant !ok ==> e > MAX_LAYOUT_EXTENTS || Maps(src, entry, base.value, e).None?
    {
      var located := LocateInFile(src, entry, base.value, e);
      if located.None? {
        ok := false;
      } else {
        var length := located.value.length;
        if e < Min(n, MAX_LAYOUT_EXTENTS) && logicalOffset + length <= U64_MAX {
          maps := maps + [ExtentMap(logicalOffset, logicalOffset + length, located.value.offset, length)];
        } else {
          ok := false;
        }
        if length <= U64_MAX - logicalOffset {
          logicalOffset := logicalOffset + length;
        } else {
          ok := false;
        }
      }
      e := e + 1;
    }
    if ok {
      MapsTile(src, entry, base.value, n);
    }
    layout := Layout(entry.itemId, ok && |maps| == n, logicalOffset, maps);
  }

  // ----- the bytes of a layout ----------------------------------------------------------------------------

  /** The bytes under the first `n` maps. */
  function Covered(file: seq<Byte>, maps: seq<ExtentMap>, n: nat): (r: seq<Byte>)
    requires n <= |maps| && Tiles(file, maps)
    ensures |r| == EndOf(maps, n)
  {
    if n == 0 then []
    else
      assert Fits(file, maps, n - 1);
      Covered(file, maps, n - 1) + file[maps[n - 1].fileOffset..maps[n - 1].fileOffset + maps[n - 1].fileLength]
  }

  /** Inside one map, the bytes of the item are bytes of the file. */
  lemma {:induction false} CoveredSlice(file: seq<Byte>, maps: seq<ExtentMap>, i: nat, n: nat, a: nat, length: nat)
    requires i < n <= |maps| && Tiles(file, maps) && maps[i].logicalBegin <= a && a + length <= maps[i].logicalEnd
    ensures a + length <= EndOf(maps, n)
    ensures var start := maps[i].fileOffset + (a - maps[i].logicalBegin);
            start + length <= |file| && Covered(file, maps, n)[a..a + length] == file[start..start + length]
  {
    var all := Covered(file, maps, n);
    assert Fits(file, maps, n - 1) && Fits(file, maps, i);
    if i + 1 < n {
      CoveredSlice(file, maps, i, n - 1, a, length);
      assert all[a..a + length] == Covered(file, maps, n - 1)[a..a + length];
    } else {
      var m := maps[i];
      var tail := file[m.fileOffset..m.fileOffset + m.fileLength];
      assert all == Covered(file, maps, i) + tail;
      assert all[a..a + length] == tail[a - m.logicalBegin..a - m.logicalBegin + length];
      SliceOfSlice(file, m.fileOffset, m.fileLength, a - m.logicalBegin, length);
    }
  }

  ghost predicate RangesInFile(file: seq<Byte>, ranges: seq<FileRange>) {
    forall i :: 0 <= i < |ranges| ==> ranges[i].length > 0 && ranges[i].offset + ranges[i].length <= |file|
  }

  function RangeSlice(file: seq<Byte>, range: FileRange): (r: seq<Byte>)
    requires range.offset + range.length <= |file|
    ensures |r| == range.length
  {
    file[range.offset..range.offset + range.length]
  }

  ghost function RangeSlices(file: seq<Byte>, ranges: seq<FileRange>): (r: seq<seq<Byte>>)
    requires RangesInFile(file, ranges)
    ensures |r| == |ranges| && forall i :: 0 <= i < |r| ==> r[i] == RangeSlice(file, ranges[i])
  {
    seq(|ranges|, i requires 0 <= i < |ranges| => RangeSlice(file, ranges[i]))
  }

  /** The bytes of the ranges, one after another. */
  ghost function RangeBytes(file: seq<Byte>, ranges: seq<FileRange>): seq<Byte>
    requires RangesInFile(file, ranges)
  {
    Concat(RangeSlices(file, ranges))
  }

  lemma RangeBytesJoin(file: seq<Byte>, a: seq<FileRange>, b: seq<FileRange>)
    requires RangesInFile(file, a) && RangesInFile(file, b)
    ensures RangesInFile(file, a + b) && RangeBytes(file, a + b) == RangeBytes(file, a) + RangeBytes(file, b)
  {
    hide RangeSlice;
    hide Concat;
    assert RangeSlices(file, a + b) == RangeSlices(file, a) + RangeSlices(file, b);
    ConcatJoin(RangeSlices(file, a), RangeSlices(file, b));
  }

  lemma OneMoreRange(file: seq<Byte>, parts: seq<FileRange>, part: FileRange)
    requires RangesInFile(file, parts) && part.length > 0 && part.offset + part.length <= |file|
    ensures RangesInFile(file, parts + [part])
    ensures RangeBytes(file, parts + [part]) == RangeBytes(file, parts) + RangeSlice(file, part)
  {
    RangeBytesJoin(file, parts, [part]);
    hide RangeSlice;
    var slices := RangeSlices(file, [part]);
    assert slices == [RangeSlice(file, part)] && slices[..0] == [];
    assert Concat(slices) == [] + slices[0];
  }

  // ----- resolving a slice ----------------------------------------------------------------------------------

  ghost predicate SoundLayout(file: seq<Byte>, layout: Layout) {
    layout.valid ==>
      && Tiles(file, layout.maps) && |layout.maps| <= MAX_LAYOUT_EXTENTS
      && layout.totalLength == EndOf(layout.maps, |layout.maps|)
  }

  /** The first map that contains `offset`. */
  method FindMap(maps: seq<ExtentMap>, offset: nat, ghost file: seq<Byte>) returns (start: Option<nat>)
    requires Tiles(file, maps)
    ensures start.None? <==> EndOf(maps, |maps|) <= offset
    ensures start.Some? ==>
              && start.value < |maps|
              && maps[start.value].logicalBegin <= offset < maps[start.value].logicalEnd
  {
    var i := 0;
    while i < |maps|
      invariant 0 <= i <= |maps| && EndOf(maps, i) <= offset
    {
      assert Fits(file, maps, i);
      if offset >= maps[i].logicalBegin && offset < maps[i].logicalEnd {
        EndsGrow(file, maps, i + 1, |maps|);
        return Some(i);
      }
      i := i + 1;
    }
    start := None;
  }

  lemma {:induction false} EndsGrow(file: seq<Byte>, maps: seq<ExtentMap>, m: nat, n: nat)
    requires Tiles(file, maps) && m <= n <= |maps|
    ensures EndOf(maps, m) <= EndOf(maps, n)
  {
    if m < n {
      assert Fits(file, maps, n - 1);
      EndsGrow(file, maps, m, n - 1);
    }
  }

  /**
   * In a valid layout exactly the nonempty slices inside it resolve, and their parts are the bytes of
   * the slice.
   */
  method ResolveSlice(layout: Layout, offset: U64, length: U64, ghost file: seq<Byte>)
    returns (r: Option<seq<FileRange>>)
    requires SoundLayout(file, layout)
    ensures r.Some? <==> layout.valid && length > 0 && offset + length <= layout.totalLength
    ensures r.Some? ==>
              && r.value == SliceParts(layout.maps, offset, offset + length, |layout.maps|) != []
              && RangesInFile(file, r.value)
              && RangeBytes(file, r.value) == Covered(file, layout.maps, |layout.maps|)[offset..offset + length]
  {
    if !layout.valid || length == 0 || offset > U64_MAX - length {
      return None;
    }
    var start := FindMap(layout.maps, offset, file);
    if start.None? {
      return None;
    }
    r := TakeParts(layout.maps, start.value, offset, offset + length, file);
  }

  predicate Overlaps(m: ExtentMap, offset: nat, end: nat) { Max(m.logicalBegin, offset) < Min(m.logicalEnd, end) }

  /** What the slice from `offset` to `end` takes from the first `n` maps. */
  function SliceParts(maps: seq<ExtentMap>, offset: nat, end: nat, n: nat): (parts: seq<FileRange>)
    requires n <= |maps|
    ensures |parts| <= n
  {
    if n == 0 then []
    else
      var before := SliceParts(maps, offset, end, n - 1);
      var m := maps[n - 1];
      if Overlaps(m, offset, end) then before + [PartIn(m, Max(m.logicalBegin, offset), end)] else before
  }

  /** Nothing is taken from maps that end before the slice starts. */
  lemma {:induction false} NoPartBefore(file: seq<Byte>, maps: seq<ExtentMap>, offset: nat, end: nat, n: nat)
    requires Tiles(file, maps) && n <= |maps| && EndOf(maps, n) <= offset
    ensures SliceParts(maps, offset, end, n) == []
  {
    if n > 0 {
      assert Fits(file, maps, n - 1);
      NoPartBefore(file, maps, offset, end, n - 1);
    }
  }

  /** Nor from maps that start when the slice has ended. */
  lemma {:induction false} NoPartBehind(file: seq<Byte>, maps: seq<ExtentMap>, offset: nat, end: nat, m: nat, n: nat)
    requires Tiles(file, maps) && m <= n <= |maps| && (m < |maps| ==> EndOf(maps, m) >= end)
    ensures SliceParts(maps, offset, end, n) == SliceParts(maps, offset, end, m)
  {
    if m < n {
      assert Fits(file, maps, n - 1);
      EndsGrow(file, maps, m, n - 1);
      NoPartBehind(file, maps, offset, end, m, n - 1);
    }
  }

  /** What map `m` contributes to the bytes from `current` up to `end`. */
  function PartIn(m: ExtentMap, current: nat, end: nat): FileRange
    requires m.logicalBegin <= current < Min(end, m.logicalEnd)
  {
    FileRange(m.fileOffset + (current - m.logicalBegin), Min(end, m.logicalEnd) - current)
  }

  /** The parts are the bytes of the item from `offset` up to `current`. */
  ghost predicate Taken(file: seq<Byte>, maps: seq<ExtentMap>, offset: nat, current: nat, parts: seq<FileRange>) {
    && Tiles(file, maps) && offset <= current <= EndOf(maps, |maps|) && RangesInFile(file, parts)
    && RangeBytes(file, parts) == Covered(file, maps, |maps|)[offset..current]
  }

  /** One more part continues the slice. */
  lemma PartContinues(file: seq<Byte>, maps: seq<ExtentMap>, i: nat, offset: nat, current: nat, end: nat,
                      parts: seq<FileRange>)
    requires i < |maps| && Taken(file, maps, offset, current, parts)
    requires maps[i].logicalBegin <= current < Min(end, maps[i].logicalEnd)
    ensures var part := PartIn(maps[i], current, end);
            && current - maps[i].logicalBegin <= maps[i].fileLength
              && part.length <= maps[i].fileLength - (current - maps[i].logicalBegin)
            && Taken(file, maps, offset, current + part.length, parts + [part])
  {
    var part := PartIn(maps[i], current, end);
    MapFits(file, maps, i);
    CoveredSlice(file, maps, i, |maps|, current, part.length);
    OneMoreRange(file, parts, part);
    hide Tiles;
    hide RangeBytes;
    hide RangesInFile;
    var all := Covered(file, maps, |maps|);
    hide Covered;
    JoinedSlices(all, offset, current, current + part.length);
  }

  lemma JoinedSlices(s: seq<Byte>, a: nat, b: nat, c: nat)
    requires a <= b <= c <= |s|
    ensures s[a..b] + s[b..c] == s[a..c]
  {
  }

  lemma MapFits(file: seq<Byte>, maps: seq<ExtentMap>, i: nat)
    requires Tiles(file, maps) && i < |maps|
    ensures Fits(file, maps, i)
  {
  }

  lemma NothingTaken(file: seq<Byte>, maps: seq<ExtentMap>, start: nat, offset: nat)
    requires Tiles(file, maps) && start < |maps| && maps[start].logicalBegin <= offset < maps[start].logicalEnd
    ensures Taken(file, maps, offset, offset, [])
  {
    EndsGrow(file, maps, start + 1, |maps|);
  }

  /** How far the first `n` maps have taken the slice. */
  function TakenUpTo(maps: seq<ExtentMap>, offset: nat, end: nat, n: nat): nat
    requires n <= |maps|
  {
    Max(offset, Min(end, EndOf(maps, n)))
  }

  /** One more map takes the slice on exactly if it overlaps it. */
  lemma TakenStep(file: seq<Byte>, maps: seq<ExtentMap>, offset: nat, end: nat, n: nat)
    requires Tiles(file, maps) && n < |maps| && offset < end
    ensures var m, current := maps[n], TakenUpTo(maps, offset, end, n);
            if Overlaps(m, offset, end) then
              && current == Max(m.logicalBegin, offset) && m.logicalBegin <= current < Min(end, m.logicalEnd)
              && TakenUpTo(maps, offset, end, n + 1) == current + PartIn(m, current, end).length
            else TakenUpTo(maps, offset, end, n + 1) == current
  {
    MapFits(file, maps, n);
    hide Tiles;
  }

  lemma NothingYet(file: seq<Byte>, maps: seq<ExtentMap>, offset: nat)
    requires Tiles(file, maps) && offset <= EndOf(maps, |maps|)
    ensures Taken(file, maps, offset, offset, [])
  {
    assert RangeBytes(file, []) == [];
    hide Tiles;
    hide Covered;
  }

  lemma SliceOneMore(maps: seq<ExtentMap>, offset: nat, end: nat, n: nat)
    requires n < |maps|
    ensures SliceParts(maps, offset, end, n + 1)
            == if Overlaps(maps[n], offset, end)
                then SliceParts(maps, offset, end, n) + [PartIn(maps[n], Max(maps[n].logicalBegin, offset), end)]
               else SliceParts(maps, offset, end, n)
  {
  }

  lemma SliceStep(file: seq<Byte>, maps: seq<ExtentMap>, offset: nat, end: nat, n: nat)
    requires Tiles(file, maps) && n < |maps| && offset < end
    requires Taken(file, maps, offset, TakenUpTo(maps, offset, end, n), SliceParts(maps, offset, end, n))
    ensures Taken(file, maps, offset, TakenUpTo(maps, offset, end, n + 1), SliceParts(maps, offset, end, n + 1))
  {
    var m, current, parts := maps[n], TakenUpTo(maps, offset, end, n), SliceParts(maps, offset, end, n);
    SliceOneMore(maps, offset, end, n);
    TakenStep(file, maps, offset, end, n);
    hide *;
    if Overlaps(m, offset, end) {
      var part := PartIn(m, current, end);
      assert SliceParts(maps, offset, end, n + 1) == parts + [part];
      PartContinues(file, maps, n, offset, current, end, parts);
    }
  }

  /** The parts of the first `n` maps are the slice as far as these maps reach. */
  lemma {:induction false} PartsAreSlice(file: seq<Byte>, maps: seq<ExtentMap>, offset: nat, end: nat, n: nat)
    requires Tiles(file, maps) && offset < end <= EndOf(maps, |maps|) && n <= |maps|
    ensures Taken(file, maps, offset, TakenUpTo(maps, offset, end, n), SliceParts(maps, offset, end, n))
  {
    if n > 0 {
      PartsAreSlice(file, maps, offset, end, n - 1);
      hide *;
      SliceStep(file, maps, offset, end, n - 1);
    } else {
      NothingYet(file, maps, offset);
      assert TakenUpTo(maps, offset, end, 0) == offset && SliceParts(maps, offset, end, 0) == [];
      hide *;
    }
  }

  method TakeParts(maps: seq<ExtentMap>, start: nat, offset: U64, end: U64, ghost file: seq<Byte>)
    returns (r: Option<seq<FileRange>>)
    requires Tiles(file, maps) && start < |maps| <= MAX_LAYOUT_EXTENTS && offset < end
    requires maps[start].logicalBegin <= offset < maps[start].logicalEnd
    ensures r.Some? <==> end <= EndOf(maps, |maps|)
    ensures r.Some? ==>
              && r.value == SliceParts(maps, offset, end, |maps|) != []
              && Taken(file, maps, offset, end, r.value)
  {
    hide Taken;
    hide Tiles;
    NothingTaken(file, maps, start, offset);
    StartEnds(file, maps, start);
    NoPartBefore(file, maps, offset, end, start);
    var current, parts := offset as nat, [];
    var i := start;
    while i < |maps| && current < end
      invariant start <= i <= |maps| && |parts| <= i - start && offset <= current <= end
      invariant if i == start then current == offset else |parts| > 0 && (current == EndOf(maps, i) || current == end)
      invariant i > start ==> current <= EndOf(maps, i)
      invariant Taken(file, maps, offset, current, parts) && parts == SliceParts(maps, offset, end, i)
    {
      var m := maps[i];
      MapFits(file, maps, i);
      if Min(end, m.logicalEnd) > current {
        var part := PartIn(m, current, end);
        PartContinues(file, maps, i, offset, current, end, parts);
        if current - m.logicalBegin > m.fileLength || part.length > m.fileLength - (current - m.logicalBegin)
            || |parts| >= MAX_SLICE_PARTS {
          return None;
        }
        parts := parts + [part];
        current := current + part.length;
      }
      i := i + 1;
    }
    TakenEnds(file, maps, offset, current, parts);
    if current == end {
      NoPartBehind(file, maps, offset, end, i, |maps|);
    }
    r := if current != end then None else Some(parts);
  }

  lemma StartEnds(file: seq<Byte>, maps: seq<ExtentMap>, start: nat)
    requires Tiles(file, maps) && start < |maps|
    ensures EndOf(maps, start) == maps[start].logicalBegin
  {
    assert Fits(file, maps, start);
  }

  lemma TakenEnds(file: seq<Byte>, maps: seq<ExtentMap>, offset: nat, current: nat, parts: seq<FileRange>)
    requires Taken(file, maps, offset, current, parts)
    ensures current <= EndOf(maps, |maps|)
  {
  }
}
