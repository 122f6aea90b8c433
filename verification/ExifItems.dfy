/**
 * Exif items from the writer's side: the ways in which TIFF data is wrapped into an item, and the
 * proof that a scan with a following extraction unwraps them.
 */
module ExifItems {
  import opened Bytes
  import opened Blocks
  import opened BlockSinks
  import opened ItemData
  import opened ExifPreamble
  import opened ScannerLayouts
  import opened ScannerItems
  import opened ScannerBlocks
  import opened ItemScan
  import PS = PayloadSpec

  const LITTLE_ENDIAN_TIFF: seq<Byte> := [0x49, 0x49, 0x2A, 0x00]
  const BIG_ENDIAN_TIFF: seq<Byte> := [0x4D, 0x4D, 0x00, 0x2A]

  predicate IsTiff(t: seq<Byte>) { |t| >= 4 && (t[..4] == LITTLE_ENDIAN_TIFF || t[..4] == BIG_ENDIAN_TIFF) }

  /** "Exif", a zero byte and one more byte. */
  function Marker(x: Byte): (m: seq<Byte>)
    ensures |m| == 6
  {
    [0x45, 0x78, 0x69, 0x66, 0x00, x]
  }

  /** An offset field and the bytes it says to skip. */
  function OffsetAndGap(gap: seq<Byte>): (f: seq<Byte>)
    requires |gap| <= U32_MAX
    ensures |f| == 4 + |gap|
  {
    BeBytes(|gap|, 4) + gap
  }

  /** What a writer puts in front of the TIFF data. */
  datatype Wrapping = Bare | Marked(x: Byte) | Offset(gap: seq<Byte>) | OffsetMarked(gap: seq<Byte>, x: Byte)

  predicate ProperWrapping(w: Wrapping) { (w.Offset? || w.OffsetMarked?) ==> |w.gap| <= U32_MAX }

  function Front(w: Wrapping): seq<Byte>
    requires ProperWrapping(w)
  {
    match w
    case Bare => []
    case Marked(x) => Marker(x)
    case Offset(gap) => OffsetAndGap(gap)
    case OffsetMarked(gap, x) => OffsetAndGap(gap) + Marker(x)
  }

  // ----- the offset field -----------------------------------------------------------------------------

  /** Of a written offset field exactly the field and the gap are skipped, whatever follows. */
  lemma GapIsSkipped(gap: seq<Byte>, t: seq<Byte>)
    requires |gap| <= U32_MAX && t != []
    ensures OffsetSkip(OffsetAndGap(gap) + t) == 4 + |gap|
    ensures (OffsetAndGap(gap) + t)[4 + |gap|..] == t
  {
    var s := OffsetAndGap(gap) + t;
    assert s[..4] == BeBytes(|gap|, 4);
    assert Pow256(4) == 0x1_0000_0000;
    BeRoundTrip(|gap|, 4);
  }

  /** Whatever is skipped is an offset field and its gap; nothing else is skipped. */
  lemma SkippedIsGap(s: seq<Byte>)
    ensures OffsetSkip(s) > 0 ==>
              var gap := s[4..OffsetSkip(s)]; |gap| <= U32_MAX && s == OffsetAndGap(gap) + s[OffsetSkip(s)..]
    ensures OffsetSkip(s) == 0 ==> forall gap, t | |gap| <= U32_MAX && t != [] :: s != OffsetAndGap(gap) + t
  {
    var n := OffsetSkip(s);
    if n > 0 {
      var gap := s[4..n];
      FieldFits(s[..4]);
      BeBytesOfValue(s[..4]);
      assert s == s[..4] + gap + s[n..];
    } else {
      forall gap, t | |gap| <= U32_MAX && t != [] ensures s != OffsetAndGap(gap) + t {
        GapIsSkipped(gap, t);
      }
    }
  }

  // ----- the marker -------------------------------------------------------------------------------------

  lemma MarkerIsSkipped(x: Byte, t: seq<Byte>)
    requires IsTiff(t)
    ensures MarkerSkip(Marker(x) + t) == 6 && (Marker(x) + t)[6..] == t
  {
    var s := Marker(x) + t;
    assert s[..4] == [0x45, 0x78, 0x69, 0x66];
    assert s[6] == t[..4][0] && s[7] == t[..4][1] && s[8] == t[..4][2] && s[9] == t[..4][3];
  }

  /** A marker is skipped in front of a TIFF header only. */
  lemma SkippedIsMarker(s: seq<Byte>)
    ensures MarkerSkip(s) > 0 <==> |s| >= 10 && s[..6] == Marker(s[5]) && IsTiff(s[6..])
  {
    if |s| >= 10 {
      var t, m := s[6..], s[..6];
      assert s[..4] == m[..4];
      assert t[0] == s[6] && t[1] == s[7] && t[2] == s[8] && t[3] == s[9];
      if m[..4] == [0x45, 0x78, 0x69, 0x66] && s[4] == 0 {
        assert m[0] == m[..4][0] && m[1] == m[..4][1] && m[2] == m[..4][2] && m[3] == m[..4][3];
        assert m == Marker(s[5]);
      }
      assert t[..4] == [s[6], s[7], s[8], s[9]];
    }
  }

  lemma TiffIsNotMarker(t: seq<Byte>)
    requires IsTiff(t)
    ensures MarkerSkip(t) == 0
  {
    SkippedIsMarker(t);
    assert t[0] == t[..4][0];
    if |t| >= 10 && t[..6] == Marker(t[5]) {
      assert t[0] == t[..6][0];
    }
  }

  // ----- both ---------------------------------------------------------------------------------------------

  /** Without an offset field, what stands in its place must not be one. */
  predicate NoOffsetField(s: seq<Byte>) { |s| < 4 || 4 + BeValue(s[..4]) >= |s| }

  lemma JoinLater(a: seq<Byte>, b: seq<Byte>, c: seq<Byte>)
    ensures (a + b) + c == a + (b + c)
  {
  }

  /** Exactly the front is skipped from wrapped TIFF data of which the header is there. */
  lemma FrontIsSkipped(w: Wrapping, t: seq<Byte>)
    requires ProperWrapping(w) && IsTiff(t) && (w.Bare? || w.Marked? ==> NoOffsetField(Front(w) + t))
    ensures ExifSkip(Front(w) + t) == |Front(w)|
  {
    var s := Front(w) + t;
    match w
    case Bare =>
      assert s == t && s[0..] == s;
      TiffIsNotMarker(t);
    case Marked(x) =>
      assert s[0..] == s;
      MarkerIsSkipped(x, t);
    case Offset(gap) =>
      GapIsSkipped(gap, t);
      TiffIsNotMarker(t);
    case OffsetMarked(gap, x) =>
      JoinLater(OffsetAndGap(gap), Marker(x), t);
      GapIsSkipped(gap, Marker(x) + t);
      MarkerIsSkipped(x, t);
  }

  /** An offset field in front of anything that is no marker: exactly the field and the gap are skipped. */
  lemma AnyGapIsSkipped(gap: seq<Byte>, t: seq<Byte>)
    requires |gap| <= U32_MAX && t != [] && (|t| >= 6 ==> t[..6] != Marker(t[5]))
    ensures ExifSkip(OffsetAndGap(gap) + t) == 4 + |gap|
  {
    GapIsSkipped(gap, t);
    SkippedIsMarker(t);
  }

  /** The block notes that there was an offset field, and what it said. */
  lemma OffsetIsNoted(file: seq<Byte>, b: Block, gap: seq<Byte>, t: seq<Byte>)
    requires |file| <= SPAN_MAX && InFile(file, b) && |gap| <= U32_MAX && t != []
    requires BlockBytes(file, b) == OffsetAndGap(gap) + t
    ensures var r := WithoutOffset(file, b);
            && r.chunking == BmffExifTiffOffsetU32Be && r.auxU32 == |gap| && InFile(file, r) && BlockBytes(file, r) == t
            && r == b.(chunking := r.chunking, auxU32 := r.auxU32, dataOffset := r.dataOffset, dataSize := r.dataSize)
  {
    var s := BlockBytes(file, b);
    GapIsSkipped(gap, t);
    assert s[..4] == BeBytes(|gap|, 4);
    assert Pow256(4) == 0x1_0000_0000;
    BeRoundTrip(|gap|, 4);
    SliceOfSlice(file, b.dataOffset, b.dataSize, 4 + |gap|, |t|);
    assert s[4 + |gap|..4 + |gap| + |t|] == s[4 + |gap|..];
    hide BeValue;
    hide BeBytes;
    hide OffsetSkip;
  }

  /** The first part of the item holds the front and the TIFF header. */
  predicate HeaderInFirst(w: Wrapping, t: seq<Byte>, firstSize: nat)
    requires ProperWrapping(w)
  {
    |Front(w)| + 4 <= firstSize <= |Front(w) + t|
    && (w.Bare? || w.Marked? ==> NoOffsetField((Front(w) + t)[..firstSize]))
  }

  /** So the payload of the item is the TIFF data, whole, and nothing else. */
  lemma PayloadIsTiff(tag: ItemTag, w: Wrapping, t: seq<Byte>, firstSize: nat)
    requires tag.kind == Exif && ProperWrapping(w) && IsTiff(t) && HeaderInFirst(w, t, firstSize)
    ensures PayloadBytes(tag, Front(w) + t, firstSize) == t
  {
    var n := |Front(w)|;
    var begin := t[..firstSize - n];
    assert (Front(w) + t)[..firstSize] == Front(w) + begin;
    assert begin[..4] == t[..4];
    FrontIsSkipped(w, begin);
    assert (Front(w) + t)[n..] == t;
  }

  // ----- end to end ------------------------------------------------------------------------------------------

  /** Entry `i` is that of an Exif item whose bytes are the wrapped TIFF data `t`. */
  ghost predicate HoldsExif(env: Env, s: ScanInput, entries: seq<Entry>, i: nat, w: Wrapping, t: seq<Byte>) {
    && i < |entries| && ProperWrapping(w) && IsTiff(t)
    && (exists m :: m in s.metas && m.itemId == entries[i].itemId)
    && (forall m :: m in s.metas && m.itemId == entries[i].itemId ==> m.kind == Exif)
    && Flatten(env, entries[i].itemId, MAX_RESOLVE_PATH) == Some(Front(w) + t)
  }

  lemma FoundExif(env: Env, s: ScanInput, entries: seq<Entry>, i: nat, w: Wrapping, t: seq<Byte>)
    returns (item: MetaItem)
    requires HoldsExif(env, s, entries, i, w, t)
    ensures i < |entries| && ProperWrapping(w) && IsTiff(t)
    ensures FindItem(s.metas, entries[i].itemId) == Some(item) && item.kind == Exif
    ensures Flatten(env, entries[i].itemId, MAX_RESOLVE_PATH) == Some(Front(w) + t)
  {
    item := FindItem(s.metas, entries[i].itemId).value;
  }

  /** Extraction from any of these blocks, if the first part holds the TIFF header, returns the TIFF data. */
  ghost predicate DeliversTiffFrom(s: ScanInput, blocks: seq<Block>, start: nat, count: nat, w: Wrapping,
                                   t: seq<Byte>)
    requires ProperWrapping(w)
  {
    && |s.src.file| <= SPAN_MAX && count > 0 && start + count <= |blocks| <= U32_MAX && |t| <= U64_MAX
    && (HeaderInFirst(w, t, blocks[start].outerSize) ==> Delivers(s.src.file, blocks, start, count, t))
  }

  /** The blocks of the entry do. */
  ghost predicate DeliversTiff(s: ScanInput, entries: seq<Entry>, blocks: seq<Block>, before: nat, i: nat, w: Wrapping,
                               t: seq<Byte>)
    requires ValidInputs(s, entries) && i < |entries| && ProperWrapping(w)
  {
    DeliversTiffFrom(s, blocks, before + |BlocksBetween(s, entries, 0, i)|, |EmittedBlocks(s, entries[i])|, w, t)
  }

  lemma ExifIsDelivered(env: Env, s: ScanInput, entries: seq<Entry>, blocks: seq<Block>, before: nat, i: nat,
                        w: Wrapping, t: seq<Byte>)
    requires ValidInputs(s, entries) && i < |entries| && ProperWrapping(w) && HoldsExif(env, s, entries, i, w, t)
    requires EntryDelivers(env, s, entries, blocks, before, i)
    ensures DeliversTiff(s, entries, blocks, before, i, w, t)
  {
    hide *;
    var item := FoundExif(env, s, entries, i, w, t);
    DeliveredItem(env, s, entries, blocks, before, i, item, Front(w) + t);
    var start, count := before + |BlocksBetween(s, entries, 0, i)|, |EmittedBlocks(s, entries[i])|;
    TiffOfItem(s, blocks, start, count, item, w, t);
    Concluded(s, entries, blocks, before, i, start, count, w, t);
  }

  lemma DeliveredItem(env: Env, s: ScanInput, entries: seq<Entry>, blocks: seq<Block>, before: nat, i: nat,
                      item: MetaItem, bytes: seq<Byte>)
    requires ValidInputs(s, entries) && i < |entries| && EntryDelivers(env, s, entries, blocks, before, i)
    requires FindItem(s.metas, entries[i].itemId) == Some(item)
    requires Flatten(env, entries[i].itemId, MAX_RESOLVE_PATH) == Some(bytes)
    ensures ValidInput(s, entries[i]) && |s.src.file| <= SPAN_MAX && |bytes| <= U64_MAX
    ensures var start, count := before + |BlocksBetween(s, entries, 0, i)|, |EmittedBlocks(s, entries[i])|;
            start + count <= |blocks| <= U32_MAX && DeliversItem(s, blocks, start, count, item, bytes)
  {
    hide DeliversItem;
    hide BlocksBetween;
    hide EmittedBlocks;
    hide FindItem;
    hide Flatten;
  }

  lemma TiffOfItem(s: ScanInput, blocks: seq<Block>, start: nat, count: nat, item: MetaItem, w: Wrapping, t: seq<Byte>)
    requires |s.src.file| <= SPAN_MAX && start + count <= |blocks| <= U32_MAX && ProperWrapping(w) && IsTiff(t)
    requires |Front(w) + t| <= U64_MAX && item.kind == Exif
    requires DeliversItem(s, blocks, start, count, item, Front(w) + t)
    ensures DeliversTiffFrom(s, blocks, start, count, w, t)
  {
    hide Delivers;
    hide HeaderInFirst;
    hide PayloadBytes;
    if HeaderInFirst(w, t, blocks[start].outerSize) {
      PayloadIsTiff(TagOf(s.format, item), w, t, blocks[start].outerSize);
    }
  }

  lemma Concluded(s: ScanInput, entries: seq<Entry>, blocks: seq<Block>, before: nat, i: nat, start: nat, count: nat,
                  w: Wrapping, t: seq<Byte>)
    requires ValidInputs(s, entries) && i < |entries| && ProperWrapping(w) && ValidInput(s, entries[i])
    requires start == before + |BlocksBetween(s, entries, 0, i)| && count == |EmittedBlocks(s, entries[i])|
    requires DeliversTiffFrom(s, blocks, start, count, w, t)
    ensures DeliversTiff(s, entries, blocks, before, i, w, t)
  {
    hide DeliversTiffFrom;
    hide BlocksBetween;
    hide EmittedBlocks;
    hide ValidInputs;
  }

  /**
   * Scans all items. Of every comparable Exif item that was written as wrapped TIFF data, extraction
   * from any of its blocks returns the TIFF data.
   */
  method ScanExifItems(sink: BlockSink, src: Source, entries: seq<Entry>, rows: seq<RefRow>, metas: seq<MetaItem>,
                       format: ContainerFormat, ghost env: Env)
    returns (ghost s: ScanInput)
    requires sink.Valid() && ValidSource(src) && forall i :: 0 <= i < |entries| ==> |entries[i].extents| <= U32_MAX
    requires sink.out.Length <= U32_MAX
    modifies sink, sink.out
    ensures s.src == src && s.metas == metas && sink.Valid() && ValidInputs(s, entries)
    ensures |old(sink.Collection()).blocks| + |BlocksBetween(s, entries, 0, |entries|)| <= sink.out.Length ==>
              forall i, w, t :: 0 <= i < |entries| && Expects(env, s, entries, rows, old(sink.Collection()).blocks, i)
                                && HoldsExif(env, s, entries, i, w, t) ==>
                DeliversTiff(s, entries, sink.Collection().blocks, |old(sink.Collection()).blocks|, i, w, t)
  {
    ghost var was := sink.Collection().blocks;
    s := ScanItems(sink, src, entries, rows, metas, format, env);
    hide *;
    if |was| + |BlocksBetween(s, entries, 0, |entries|)| <= sink.out.Length {
      forall i, w, t | 0 <= i < |entries| && Expects(env, s, entries, rows, was, i)
                       && HoldsExif(env, s, entries, i, w, t)
        ensures ProperWrapping(w) && DeliversTiff(s, entries, sink.Collection().blocks, |was|, i, w, t)
      {
        var _ := FoundExif(env, s, entries, i, w, t);
        ExifIsDelivered(env, s, entries, sink.Collection().blocks, |was|, i, w, t);
      }
    }
  }
}
