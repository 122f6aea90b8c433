/**
 * TIFF files from the writer's side (sections 2 and 4.5 of TIFF 6.0, and its 64-bit form): headers,
 * directories and entries as they are written, and what the scanner makes of them.
 */
module TiffWriter {
  import opened Bytes
  import opened Blocks
  import opened TiffIfds
  import TS = TiffScan

  // ----- numbers ------------------------------------------------------------------------------------

  /** The `n` low base-256 digits of `v`, least significant first. */
  function LeBytes(v: nat, n: nat): (s: seq<Byte>)
    ensures |s| == n
  {
    if n == 0 then [] else [(v % 256) as Byte] + LeBytes(v / 256, n - 1)
  }

  lemma {:induction false} LeRoundTrip(v: nat, n: nat)
    requires v < Pow256(n)
    ensures LeValue(LeBytes(v, n)) == v
  {
    if n > 0 {
      LeRoundTrip(v / 256, n - 1);
      assert LeBytes(v, n)[1..] == LeBytes(v / 256, n - 1);
    }
  }

  function Written(cfg: TiffConfig, v: nat, n: nat): (s: seq<Byte>)
    ensures |s| == n
  {
    if cfg.little then LeBytes(v, n) else BeBytes(v, n)
  }

  lemma NumberIsRead(cfg: TiffConfig, v: nat, n: nat)
    requires v < Pow256(n)
    ensures Number(cfg, Written(cfg, v, n)) == v
  {
    LeRoundTrip(v, n);
    BeRoundTrip(v, n);
  }

  /** The number written at `at`. */
  lemma ReadsWritten(cfg: TiffConfig, bytes: seq<Byte>, at: nat, v: nat, n: nat)
    requires at + n <= |bytes| && bytes[at..at + n] == Written(cfg, v, n)
    ensures n == 2 && v <= U16_MAX ==> Read16(cfg, bytes, at) == Some(v)
    ensures n == 4 && v <= U32_MAX ==> Read32(cfg, bytes, at) == Some(v)
    ensures n == 8 && v <= U64_MAX ==> Read64(cfg, bytes, at) == Some(v)
  {
    assert Pow256(2) == 0x1_0000 && Pow256(4) == 0x1_0000_0000 && Pow256(8) == 0x1_0000_0000_0000_0000;
    if v < Pow256(n) {
      NumberIsRead(cfg, v, n);
    }
    hide Number;
    hide Written;
  }

  // ----- the header -----------------------------------------------------------------------------------

  /** The size of an offset. */
  function Wide(cfg: TiffConfig): nat { if cfg.big then 8 else 4 }

  function ByteOrderMark(cfg: TiffConfig): seq<Byte> { if cfg.little then [0x49, 0x49] else [0x4D, 0x4D] }

  /** The versions of files with 32-bit offsets: TIFF, and the raw formats RW2 and ORF. */
  predicate IsSmallVersion(v: nat) { v == 42 || v == 0x55 || v == 0x4F52 || v == 0x5352 }

  function WriteHeader(cfg: TiffConfig, version: nat, first: U64): seq<Byte> {
    ByteOrderMark(cfg) + Written(cfg, version, 2)
    + (if cfg.big then Written(cfg, 8, 2) + Written(cfg, 0, 2) else []) + Written(cfg, first, Wide(cfg))
  }

  /** The scan begins at the first directory. */
  lemma HeaderIsRead(cfg: TiffConfig, version: nat, first: U64, rest: seq<Byte>)
    requires if cfg.big then version == 43 else IsSmallVersion(version) && first <= U32_MAX
    ensures TS.StartOf(WriteHeader(cfg, version, first) + rest) == TS.Begin(cfg, first)
  {
    var bytes := WriteHeader(cfg, version, first) + rest;
    var small := TiffConfig(cfg.little, false);
    assert bytes[0..2] == ByteOrderMark(cfg) && bytes[0] == bytes[0..2][0] && bytes[1] == bytes[0..2][1];
    assert bytes[2..4] == Written(cfg, version, 2) == Written(small, version, 2);
    ReadsWritten(small, bytes, 2, version, 2);
    if cfg.big {
      assert bytes[4..6] == Written(cfg, 8, 2) && bytes[6..8] == Written(cfg, 0, 2);
      assert bytes[8..16] == Written(cfg, first, 8);
      ReadsWritten(cfg, bytes, 4, 8, 2);
      ReadsWritten(cfg, bytes, 6, 0, 2);
      ReadsWritten(cfg, bytes, 8, first, 8);
    } else {
      assert bytes[4..8] == Written(cfg, first, 4);
      ReadsWritten(cfg, bytes, 4, first, 4);
    }
    hide Read16;
    hide Read32;
    hide Read64;
    hide Written;
  }

  // ----- entries ----------------------------------------------------------------------------------------

  datatype FieldType =
    | ByteType | AsciiType | ShortType | LongType | RationalType | SByteType | UndefinedType | SShortType | SLongType
    | SRationalType | FloatType | DoubleType | IfdType | Long8Type | SLong8Type | Ifd8Type

  function CodeOf(t: FieldType): U16 {
    match t
    case ByteType => 1 case AsciiType => 2 case ShortType => 3 case LongType => 4 case RationalType => 5
    case SByteType => 6 case UndefinedType => 7 case SShortType => 8 case SLongType => 9 case SRationalType => 10
    case FloatType => 11 case DoubleType => 12 case IfdType => 13 case Long8Type => 16 case SLong8Type => 17
    case Ifd8Type => 18
  }

  /** The number of bytes of one value. */
  function WidthOf(t: FieldType): nat {
    match t
    case ByteType => 1 case AsciiType => 1 case SByteType => 1 case UndefinedType => 1
    case ShortType => 2 case SShortType => 2
    case LongType => 4 case SLongType => 4 case FloatType => 4 case IfdType => 4
    case RationalType => 8 case SRationalType => 8 case DoubleType => 8 case Long8Type => 8 case SLong8Type => 8
    case Ifd8Type => 8
  }

  /** A field: `count` values, as bytes. */
  datatype Field = Field(tag: U16, fieldType: FieldType, count: nat, value: seq<Byte>)

  predicate ProperField(cfg: TiffConfig, f: Field) {
    |f.value| == f.count * WidthOf(f.fieldType) && f.count <= (if cfg.big then U64_MAX else U32_MAX)
  }

  predicate FitsInEntry(cfg: TiffConfig, f: Field) { |f.value| <= Wide(cfg) }

  /** The entry of a field, with its value in it or at offset `place`; `pad` fills a short value up. */
  function WriteEntry(cfg: TiffConfig, f: Field, place: nat, pad: seq<Byte>): seq<Byte> {
    Written(cfg, f.tag, 2) + Written(cfg, CodeOf(f.fieldType), 2) + Written(cfg, f.count, Wide(cfg))
    + (if FitsInEntry(cfg, f) then f.value + pad else Written(cfg, place, Wide(cfg)))
  }

  /** The entry stands at `at`, and its value is where the entry says. */
  ghost predicate EntryWritten(cfg: TiffConfig, bytes: seq<Byte>, at: nat, f: Field, place: nat, pad: seq<Byte>) {
    && ProperField(cfg, f) && at + 4 + 2 * Wide(cfg) <= |bytes| <= SPAN_MAX
    && (FitsInEntry(cfg, f) ==> |f.value| + |pad| == Wide(cfg) && place == at + 4 + Wide(cfg))
    && bytes[at..at + 4 + 2 * Wide(cfg)] == WriteEntry(cfg, f, place, pad)
    && place <= (if cfg.big || FitsInEntry(cfg, f) then U64_MAX else U32_MAX)
    && place + |f.value| <= |bytes| && bytes[place..place + |f.value|] == f.value
  }

  lemma WidthIsKnown(t: FieldType)
    ensures TypeSize(CodeOf(t)) == WidthOf(t) > 0
  {
  }

  /** The four parts of an entry. */
  lemma EntryParts(cfg: TiffConfig, bytes: seq<Byte>, at: nat, f: Field, place: nat, pad: seq<Byte>)
    requires EntryWritten(cfg, bytes, at, f, place, pad)
    ensures var w := Wide(cfg);
            && bytes[at..at + 2] == Written(cfg, f.tag, 2)
            && bytes[at + 2..at + 4] == Written(cfg, CodeOf(f.fieldType), 2)
            && bytes[at + 4..at + 4 + w] == Written(cfg, f.count, w)
            && (!FitsInEntry(cfg, f) ==> bytes[at + 4 + w..at + 4 + w + w] == Written(cfg, place, w))
  {
    var w := Wide(cfg);
    var entry := WriteEntry(cfg, f, place, pad);
    var a, b, c := Written(cfg, f.tag, 2), Written(cfg, CodeOf(f.fieldType), 2), Written(cfg, f.count, w);
    var d := if FitsInEntry(cfg, f) then f.value + pad else Written(cfg, place, w);
    assert |entry| == 4 + 2 * w;
    hide Written;
    SliceOfSlice(bytes, at, 4 + 2 * w, 0, 2);
    SliceOfSlice(bytes, at, 4 + 2 * w, 2, 2);
    SliceOfSlice(bytes, at, 4 + 2 * w, 4, w);
    SliceOfSlice(bytes, at, 4 + 2 * w, 4 + w, w);
    FourParts(a, b, c, d);
  }

  lemma FourParts(a: seq<Byte>, b: seq<Byte>, c: seq<Byte>, d: seq<Byte>)
    ensures var s := a + b + c + d;
            && s[0..|a|] == a && s[|a|..|a| + |b|] == b && s[|a| + |b|..|a| + |b| + |c|] == c
            && s[|a| + |b| + |c|..|a| + |b| + |c| + |d|] == d
  {
  }

  /** What was written is read: tag, type and count, and the range of the value. */
  lemma EntryIsRead(cfg: TiffConfig, bytes: seq<Byte>, at: nat, f: Field, place: nat, pad: seq<Byte>)
    requires EntryWritten(cfg, bytes, at, f, place, pad)
    ensures EntryAt(cfg, bytes, at).Some?
    ensures var e := EntryAt(cfg, bytes, at).value;
            && e.tag == f.tag && e.fieldType == CodeOf(f.fieldType) && e.count == f.count
            && e.valueOffset == place && e.valueBytes == |f.value| && (!FitsInEntry(cfg, f) ==> e.raw == place)
  {
    var w := Wide(cfg);
    EntryParts(cfg, bytes, at, f, place, pad);
    ReadsWritten(cfg, bytes, at, f.tag, 2);
    ReadsWritten(cfg, bytes, at + 2, CodeOf(f.fieldType), 2);
    ReadsWritten(cfg, bytes, at + 4, f.count, w);
    if !FitsInEntry(cfg, f) {
      ReadsWritten(cfg, bytes, at + 4 + w, place, w);
    }
    WidthIsKnown(f.fieldType);
    hide CodeOf;
    hide WidthOf;
    hide TypeSize;
    hide Written;
    hide WriteEntry;
    EntryFromParts(cfg, bytes, at, f, place);
  }

  lemma EntryFromParts(cfg: TiffConfig, bytes: seq<Byte>, at: nat, f: Field, place: nat)
    requires ProperField(cfg, f) && at + 4 + 2 * Wide(cfg) <= |bytes| <= SPAN_MAX && place + |f.value| <= |bytes|
    requires Read16(cfg, bytes, at) == Some(f.tag) && Read16(cfg, bytes, at + 2) == Some(CodeOf(f.fieldType))
    requires TypeSize(CodeOf(f.fieldType)) == WidthOf(f.fieldType) > 0
    requires (if cfg.big then Read64(cfg, bytes, at + 4) else Read32(cfg, bytes, at + 4)) == Some(f.count)
    requires if FitsInEntry(cfg, f) then place == at + 4 + Wide(cfg)
             else (if cfg.big then Read64(cfg, bytes, at + 12) else Read32(cfg, bytes, at + 8)) == Some(place)
    ensures EntryAt(cfg, bytes, at).Some?
    ensures var e := EntryAt(cfg, bytes, at).value;
            && e.tag == f.tag && e.fieldType == CodeOf(f.fieldType) && e.count == f.count
            && e.valueOffset == place && e.valueBytes == |f.value| && (!FitsInEntry(cfg, f) ==> e.raw == place)
  {
    hide CodeOf;
    hide WidthOf;
    hide TypeSize;
    hide Number;
  }

  // ----- values that are metadata ---------------------------------------------------------------------

  /** The tags whose values are metadata: XMP, IPTC, Photoshop, ICC and the maker note. */
  const KINDS: map<U16, BlockKind> := map[
    0x02BC := BlockKind.Xmp, 0x83BB := BlockKind.IptcIim, 0x8649 := BlockKind.PhotoshopIrB, 0x8773 := BlockKind.Icc,
    0x927C := BlockKind.MakerNote]

  /** The types of boxes that are looked for: "jumb" and "c2pa". */
  const BOX_TYPES: seq<seq<Byte>> := [[0x6A, 0x75, 0x6D, 0x62], [0x63, 0x32, 0x70, 0x61]]

  /** The value is one box from its first to its last byte, with a 32-bit size, without one, or with a 64-bit one. */
  predicate IsWholeBox(value: seq<Byte>, boxType: seq<Byte>)
    requires |boxType| == 4
  {
    && |value| >= 8 && value[4..8] == boxType
    && (|| (|value| <= U32_MAX && value[..4] == BeBytes(|value|, 4))
        || value[..4] == BeBytes(0, 4)
        || (value[..4] == BeBytes(1, 4) && |value| >= 16 && value[8..16] == BeBytes(|value|, 8)))
  }

  /** The block over a whole value. */
  predicate IsValueBlock(b: Block, tag: U16, kind: BlockKind, place: nat, size: nat) {
    && b.format == Tiff && b.kind == kind && b.id == tag && b.outerOffset == b.dataOffset == place
    && b.outerSize == b.dataSize == size && b.compression == Uncompressed && b.partCount == 0
    && b.chunking == if kind == BlockKind.PhotoshopIrB then PsIrB8Bim else Raw
  }

  /** The blocks of a field: one if its value is a box of the types that are looked for, one if its tag says so. */
  ghost predicate AreBlocksOf(blocks: seq<Block>, f: Field, place: nat) {
    var boxed := IsWholeBox(f.value, BOX_TYPES[0]) || IsWholeBox(f.value, BOX_TYPES[1]);
    var n := if boxed then 1 else 0;
    && |blocks| == n + (if f.tag in KINDS then 1 else 0)
    && (boxed ==> IsValueBlock(blocks[0], f.tag, BlockKind.Jumbf, place, |f.value|)
                  && blocks[0].auxU32 == BeValue(f.value[4..8]))
    && (f.tag in KINDS ==> IsValueBlock(blocks[n], f.tag, KINDS[f.tag], place, |f.value|))
  }

  /** A number is what its digits say. */
  lemma DigitsSay(s: seq<Byte>, v: nat)
    requires v < Pow256(|s|)
    ensures BeValue(s) == v <==> s == BeBytes(v, |s|)
  {
    BeBytesOfValue(s);
    BeRoundTrip(v, |s|);
  }

  lemma BoxTypes()
    ensures FourCC('j', 'u', 'm', 'b') == BeValue(BOX_TYPES[0]) && FourCC('c', '2', 'p', 'a') == BeValue(BOX_TYPES[1])
  {
    BeOfFour(0x6A, 0x75, 0x6D, 0x62);
    BeOfFour(0x63, 0x32, 0x70, 0x61);
  }

  /** The size field of the value, in all its forms, against the length of the value. */
  lemma SizeSays(value: seq<Byte>)
    requires 8 <= |value| <= SPAN_MAX
    ensures BeValue(value[..4]) == |value| <==> |value| <= U32_MAX && value[..4] == BeBytes(|value|, 4)
    ensures BeValue(value[..4]) == 0 <==> value[..4] == BeBytes(0, 4)
    ensures BeValue(value[..4]) == 1 <==> value[..4] == BeBytes(1, 4)
    ensures |value| >= 16 ==> (BeValue(value[8..16]) == |value| <==> value[8..16] == BeBytes(|value|, 8))
  {
    assert Pow256(4) == 0x1_0000_0000 && Pow256(8) == 0x1_0000_0000_0000_0000;
    BeValueBound(value[..4]);
    if |value| <= U32_MAX {
      DigitsSay(value[..4], |value|);
    }
    DigitsSay(value[..4], 0);
    DigitsSay(value[..4], 1);
    if |value| >= 16 {
      DigitsSay(value[8..16], |value|);
    }
  }

  lemma TypeSays(four: seq<Byte>, i: nat)
    requires |four| == 4 && i < 2
    ensures BeValue(four) == BeValue(BOX_TYPES[i]) <==> four == BOX_TYPES[i]
  {
    BeBytesOfValue(four);
    BeBytesOfValue(BOX_TYPES[i]);
  }

  /** The blocks that are found in a written entry are those of the field. */
  lemma BlocksAreOfField(cfg: TiffConfig, bytes: seq<Byte>, at: nat, f: Field, place: nat, pad: seq<Byte>)
    requires EntryWritten(cfg, bytes, at, f, place, pad)
    ensures EntryAt(cfg, bytes, at).Some? && AreBlocksOf(EntryBlocks(bytes, EntryAt(cfg, bytes, at).value), f, place)
  {
    EntryIsRead(cfg, bytes, at, f, place, pad);
    var e := EntryAt(cfg, bytes, at).value;
    assert place + |f.value| <= |bytes| <= SPAN_MAX && bytes[place..place + |f.value|] == f.value;
    hide EntryWritten;
    hide EntryAt;
    BoxIsFound(bytes, e, f.value);
    TagIsFound(e, f.value);
    hide JumbfValue;
    hide TaggedValue;
    hide IsWholeBox;
  }

  lemma BoxIsFound(bytes: seq<Byte>, e: IfdEntry, value: seq<Byte>)
    requires CheckedRange(e.valueOffset, e.valueBytes, |bytes|) && e.valueBytes == |value| <= SPAN_MAX
    requires bytes[e.valueOffset..e.valueOffset + |value|] == value
    ensures var blocks := JumbfValue(bytes, e);
            if IsWholeBox(value, BOX_TYPES[0]) || IsWholeBox(value, BOX_TYPES[1]) then
              && |blocks| == 1 && IsValueBlock(blocks[0], e.tag, BlockKind.Jumbf, e.valueOffset, |value|)
              && blocks[0].auxU32 == BeValue(value[4..8])
            else blocks == []
  {
    if |value| >= 8 {
      var at := e.valueOffset;
      SliceOfSlice(bytes, at, |value|, 0, 4);
      SliceOfSlice(bytes, at, |value|, 4, 4);
      assert value[0..4] == value[..4];
      if |value| >= 16 {
        SliceOfSlice(bytes, at, |value|, 8, 8);
      }
      BoxIsRead(value);
      hide BeValue;
      hide IsWholeBox;
    }
  }

  /** The value is taken for a box exactly if it is one. */
  predicate TakenForBox(value: seq<Byte>)
    requires |value| >= 8
  {
    var size32, boxType := BeValue(value[..4]), BeValue(value[4..8]);
    var long := size32 == 1 && |value| >= 16;
    var size := if long then BeValue(value[8..16]) else if size32 == 0 then |value| else size32;
    && size == |value| && size >= (if long then 16 else 8)
    && (boxType == FourCC('j', 'u', 'm', 'b') || boxType == FourCC('c', '2', 'p', 'a'))
  }

  lemma BoxIsRead(value: seq<Byte>)
    requires 8 <= |value| <= SPAN_MAX
    ensures TakenForBox(value) <==> IsWholeBox(value, BOX_TYPES[0]) || IsWholeBox(value, BOX_TYPES[1])
  {
    SizeSays(value);
    BoxTypes();
    TypeSays(value[4..8], 0);
    TypeSays(value[4..8], 1);
    hide BeValue;
    hide BeBytes;
  }

  lemma TagIsFound(e: IfdEntry, value: seq<Byte>)
    requires e.valueBytes == |value|
    ensures var blocks := TaggedValue(e);
            if e.tag in KINDS then
              |blocks| == 1 && IsValueBlock(blocks[0], e.tag, KINDS[e.tag], e.valueOffset, |value|)
            else blocks == []
  {
  }

  // ----- values that point to directories ------------------------------------------------------------------

  /** The tags of pointers: to the Exif, GPS and interoperability directories, and to further ones. */
  const POINTERS: set<U16> := {0x8769, 0x8825, 0xA005, 0x014A}

  /** The width of one offset in a field of pointers. */
  function OffsetWidth(cfg: TiffConfig, t: FieldType): nat {
    if cfg.big && t != LongType && t != IfdType then 8 else 4
  }

  /** Number `j` of the offsets in the value. */
  predicate OffsetAt(cfg: TiffConfig, value: seq<Byte>, j: nat, width: nat, target: U64) {
    || (width == 4 && target <= U32_MAX && j * 4 + 4 <= |value| && value[j * 4..j * 4 + 4] == Written(cfg, target, 4))
    || (width == 8 && j * 8 + 8 <= |value| && value[j * 8..j * 8 + 8] == Written(cfg, target, 8))
  }

  /** The field points to these directories; of more than 32 in one field the others are not followed. */
  ghost predicate PointsTo(cfg: TiffConfig, f: Field, targets: seq<U64>) {
    if f.tag !in POINTERS then targets == []
    else
      && WidthOf(f.fieldType) == OffsetWidth(cfg, f.fieldType)
      && (forall j :: 0 <= j < |targets| ==>
            OffsetAt(cfg, f.value, j, OffsetWidth(cfg, f.fieldType), targets[j]))
      && if f.tag == 0x014A && f.count > 1 then |targets| == Min(f.count, 32)
         else
           // a single pointer fills its field
           f.count == 1 == |targets| && OffsetWidth(cfg, f.fieldType) == Wide(cfg)
  }

  /** The offsets other than 0, which stands for no directory. */
  function Nonzero(targets: seq<U64>): seq<U64> {
    if targets == [] then []
    else
      var last := targets[|targets| - 1];
      Nonzero(targets[..|targets| - 1]) + if last == 0 then [] else [last]
  }

  /** An offset in a value that stands at `at`. */
  lemma OffsetIsRead(cfg: TiffConfig, bytes: seq<Byte>, at: nat, value: seq<Byte>, j: nat, width: nat, target: U64)
    requires at + |value| <= |bytes| && bytes[at..at + |value|] == value && OffsetAt(cfg, value, j, width, target)
    ensures width == 4 || width == 8
    ensures width == 4 ==> Read32(cfg, bytes, at + j * 4) == Some(target)
    ensures width == 8 ==> Read64(cfg, bytes, at + j * 8) == Some(target)
  {
    if width == 4 {
      SliceOfSlice(bytes, at, |value|, j * 4, 4);
      ReadsWritten(cfg, bytes, at + j * 4, target, 4);
    } else {
      SliceOfSlice(bytes, at, |value|, j * 8, 8);
      ReadsWritten(cfg, bytes, at + j * 8, target, 8);
    }
    hide Read32;
    hide Read64;
    hide Written;
  }

  lemma SubIfdIsRead(cfg: TiffConfig, bytes: seq<Byte>, e: IfdEntry, f: Field, targets: seq<U64>, j: nat)
    requires ProperField(cfg, f) && PointsTo(cfg, f, targets) && f.tag == 0x014A && f.count > 1 && j < |targets|
    requires e.fieldType == CodeOf(f.fieldType) && e.valueOffset + |f.value| <= |bytes| <= SPAN_MAX
    requires bytes[e.valueOffset..e.valueOffset + |f.value|] == f.value
    ensures SubIfd(cfg, bytes, e, j) == targets[j]
  {
    var w := OffsetWidth(cfg, f.fieldType);
    assert OffsetAt(cfg, f.value, j, w, targets[j]);
    assert (e.fieldType == 4 || e.fieldType == 13) <==> (f.fieldType == LongType || f.fieldType == IfdType);
    assert w == if !cfg.big || e.fieldType == 4 || e.fieldType == 13 then 4 else 8;
    hide CodeOf;
    hide WidthOf;
    hide PointsTo;
    hide OffsetAt;
    OffsetIsRead(cfg, bytes, e.valueOffset, f.value, j, w, targets[j]);
    hide Read32;
    hide Read64;
  }

  lemma {:induction false} SubIfdsAreRead(cfg: TiffConfig, bytes: seq<Byte>, e: IfdEntry, f: Field,
                                          targets: seq<U64>, n: nat)
    requires ProperField(cfg, f) && PointsTo(cfg, f, targets) && f.tag == 0x014A && f.count > 1 && n <= |targets|
    requires e.fieldType == CodeOf(f.fieldType) && e.valueOffset + |f.value| <= |bytes| <= SPAN_MAX
    requires bytes[e.valueOffset..e.valueOffset + |f.value|] == f.value
    ensures SubIfds(cfg, bytes, e, n) == Nonzero(targets[..n])
  {
    if n > 0 {
      SubIfdsAreRead(cfg, bytes, e, f, targets, n - 1);
      SubIfdIsRead(cfg, bytes, e, f, targets, n - 1);
      assert targets[..n][..n - 1] == targets[..n - 1];
      hide PointsTo;
      hide SubIfd;
      hide ProperField;
    }
  }

  /** The pointers of a written field are followed. */
  lemma PointersAreFollowed(cfg: TiffConfig, bytes: seq<Byte>, at: nat, f: Field, place: nat, pad: seq<Byte>,
                            targets: seq<U64>)
    requires EntryWritten(cfg, bytes, at, f, place, pad) && PointsTo(cfg, f, targets)
    ensures EntryAt(cfg, bytes, at).Some? && Pointers(cfg, bytes, EntryAt(cfg, bytes, at).value) == Nonzero(targets)
  {
    EntryIsRead(cfg, bytes, at, f, place, pad);
    var e := EntryAt(cfg, bytes, at).value;
    assert ProperField(cfg, f) && place + |f.value| <= |bytes| <= SPAN_MAX;
    assert bytes[place..place + |f.value|] == f.value;
    hide EntryWritten;
    hide EntryAt;
    if f.tag in POINTERS {
      if f.tag == 0x014A && f.count > 1 {
        SubIfdsAreRead(cfg, bytes, e, f, targets, |targets|);
        assert targets[..|targets|] == targets;
        hide SubIfds;
        hide Nonzero;
      } else {
        assert OffsetAt(cfg, f.value, 0, Wide(cfg), targets[0]);
        SinglePointer(cfg, bytes, e, f, targets[0]);
        assert targets == [targets[0]] && targets[..0] == [];
        hide PointerOf;
      }
    }
  }

  lemma SinglePointer(cfg: TiffConfig, bytes: seq<Byte>, e: IfdEntry, f: Field, target: U64)
    requires e.valueOffset + |f.value| <= |bytes| <= SPAN_MAX && e.valueBytes == |f.value| == Wide(cfg)
    requires bytes[e.valueOffset..e.valueOffset + |f.value|] == f.value && OffsetAt(cfg, f.value, 0, Wide(cfg), target)
    ensures PointerOf(cfg, bytes, e) == target
  {
    OffsetIsRead(cfg, bytes, e.valueOffset, f.value, 0, Wide(cfg), target);
    hide Read32;
    hide Read64;
    hide OffsetAt;
  }

  /**
   * A single pointer of 32 bits in a file with 64-bit offsets, filled up with zeros: it is read with
   * its filling, so it is followed exactly if the least significant byte comes first.
   */
  lemma NarrowPointer(cfg: TiffConfig, bytes: seq<Byte>, e: IfdEntry, target: U32)
    requires cfg.big && target > 0 && e.valueOffset + 8 <= |bytes| <= SPAN_MAX && e.valueBytes == 4
    requires bytes[e.valueOffset..e.valueOffset + 8] == Written(cfg, target, 4) + [0, 0, 0, 0]
    ensures PointerOf(cfg, bytes, e) == target <==> cfg.little
  {
    var eight := bytes[e.valueOffset..e.valueOffset + 8];
    assert Pow256(4) == 0x1_0000_0000;
    if cfg.little {
      LePadded(LeBytes(target, 4), 4);
      LeRoundTrip(target, 4);
      assert Zeros(4) == [0, 0, 0, 0];
    } else {
      BePadded(BeBytes(target, 4), 4);
      BeRoundTrip(target, 4);
      assert Zeros(4) == [0, 0, 0, 0];
    }
  }

  function Zeros(n: nat): (s: seq<Byte>)
    ensures |s| == n
  {
    if n == 0 then [] else Zeros(n - 1) + [0]
  }

  lemma {:induction false} LePadded(s: seq<Byte>, n: nat)
    ensures LeValue(s + Zeros(n)) == LeValue(s)
    decreases |s|
  {
    if s == [] {
      assert s + Zeros(n) == Zeros(n);
      LeZeros(n);
    } else {
      LePadded(s[1..], n);
      assert (s + Zeros(n))[1..] == s[1..] + Zeros(n);
    }
  }

  lemma {:induction false} LeZeros(n: nat)
    ensures LeValue(Zeros(n)) == 0
  {
    if n > 0 {
      ZerosFront(n - 1);
      LeZeros(n - 1);
    }
  }

  lemma {:induction false} ZerosFront(n: nat)
    ensures Zeros(n + 1) == [0] + Zeros(n)
  {
    if n > 0 {
      ZerosFront(n - 1);
    }
  }

  lemma {:induction false} BePadded(s: seq<Byte>, n: nat)
    ensures BeValue(s + Zeros(n)) == BeValue(s) * Pow256(n)
  {
    if n == 0 {
      assert s + Zeros(0) == s;
    } else {
      BePadded(s, n - 1);
      var all := s + Zeros(n);
      assert all[..|all| - 1] == s + Zeros(n - 1);
    }
  }
}
