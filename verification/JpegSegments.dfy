/**
 * The marker segments of a JPEG file, and the metadata block that each of them stands for: once read
 * from the whole file, once from a short prefix of the segment payload.
 */
module JpegSegments {
  import opened Bytes
  import opened Blocks

  // ----- reading ----------------------------------------------------------------------------------

  function Ascii(s: string): (r: seq<Byte>)
    requires forall i :: 0 <= i < |s| ==> s[i] < 128 as char
    ensures |r| == |s|
  {
    seq(|s|, i requires 0 <= i < |s| => s[i] as int as Byte)
  }

  predicate MatchAt(bytes: seq<Byte>, offset: nat, s: seq<Byte>) {
    CheckedRange(offset, |s|, |bytes|) && bytes[offset..offset + |s|] == s
  }

  /** A big-endian number of `n` bytes at `offset`. */
  function ReadBe(bytes: seq<Byte>, offset: nat, n: nat): Option<nat> {
    if CheckedRange(offset, n, |bytes|) then Some(BeValue(bytes[offset..offset + n])) else None
  }

  /** The FNV-1a hash of `data`. */
  function Fnv(data: seq<Byte>): bv64 {
    if data == [] then 14695981039346656037
    else (Fnv(data[..|data| - 1]) ^ (data[|data| - 1] as bv64)) * 1099511628211
  }

  function Fnv1a64(data: seq<Byte>): U64 { Fnv(data) as int }

  lemma HashStep()
    ensures ((0xcbf29ce484222325 as bv64) ^ 0x61) * 0x100000001b3 == 0xaf63dc4c8601ec8c
  {
  }

  lemma BitsOfLetter(b: Byte)
    requires b == 0x61
    ensures b as bv64 == 0x61
  {
  }

  /** Two of the published values of the hash: of no data, and of the letter a. */
  lemma HashValues(data: seq<Byte>)
    requires data == [0x61]
    ensures Fnv([]) == 0xcbf29ce484222325 && Fnv(data) == 0xaf63dc4c8601ec8c
  {
    assert data[..0] == [];
    HashStep();
    BitsOfLetter(data[0]);
  }

  // ----- the walk over the markers ---------------------------------------------------------------------

  datatype Segment = Segment(marker: U16, totalOffset: nat, totalSize: nat, payloadOffset: nat, payloadSize: nat)

  predicate InBounds(bytes: seq<Byte>, s: Segment) {
    && CheckedRange(s.payloadOffset, s.payloadSize, |bytes|) && s.payloadSize < 0x10000
    && s.payloadOffset == s.totalOffset + 4 && s.totalSize == s.payloadSize + 4
  }

  /** The first position from `offset` on that is not a fill byte. */
  function SkipFill(bytes: seq<Byte>, offset: nat): (r: nat)
    requires offset <= |bytes|
    ensures offset <= r <= |bytes| && (r < |bytes| ==> bytes[r] != 0xFF)
    ensures forall i :: offset <= i < r ==> bytes[i] == 0xFF
    decreases |bytes| - offset
  {
    if offset < |bytes| && bytes[offset] == 0xFF then SkipFill(bytes, offset + 1) else offset
  }

  /** What stands at a marker position. */
  datatype Step = Finished | Broken | Standalone(next: nat) | Found(segment: Segment)

  function StepAt(bytes: seq<Byte>, offset: nat): (r: Step)
    requires offset + 2 <= |bytes|
    ensures r.Standalone? ==> offset < r.next <= |bytes|
    ensures r.Found? ==> InBounds(bytes, r.segment) && offset + 1 < r.segment.payloadOffset
  {
    if bytes[offset] != 0xFF then Broken
    else
      var at := SkipFill(bytes, offset);
      if at == |bytes| then Finished
      else
        var low := bytes[at] as int;
        if low == 0xD9 || low == 0xDA then Finished
        else if 0xD0 <= low <= 0xD7 || low == 0x01 then Standalone(at + 1)
        else
          match ReadBe(bytes, at + 1, 2)
          case None => Broken
          case Some(length) =>
            if length < 2 || !CheckedRange(at + 3, length - 2, |bytes|) then Broken
            else
              BeValueBound(bytes[at + 1..at + 3]);
              assert Pow256(2) == 0x10000;
              Found(Segment(0xFF00 + low, at - 1, 2 + length, at + 3, length - 2))
  }

  /** The segments from `offset` on, and whether the walk ended at a proper end. */
  function Walk(bytes: seq<Byte>, offset: nat): (r: (seq<Segment>, bool))
    requires offset <= |bytes|
    ensures forall i :: 0 <= i < |r.0| ==> InBounds(bytes, r.0[i])
    decreases |bytes| - offset
  {
    if offset + 2 > |bytes| then ([], true)
    else match StepAt(bytes, offset)
      case Finished => ([], true)
      case Broken => ([], false)
      case Standalone(next) => Walk(bytes, next)
      case Found(segment) =>
        var rest := Walk(bytes, segment.payloadOffset + segment.payloadSize);
        ([segment] + rest.0, rest.1)
  }

  // ----- what a segment stands for ------------------------------------------------------------------------

  function Located(s: Segment, kind: BlockKind, dataOffset: nat, dataSize: nat): Block
    requires s.totalOffset <= SPAN_MAX && s.totalSize <= SPAN_MAX && dataOffset <= SPAN_MAX && dataSize <= SPAN_MAX
  {
    NO_BLOCK.(format := Jpeg, kind := kind, id := s.marker, outerOffset := s.totalOffset, outerSize := s.totalSize,
              dataOffset := dataOffset, dataSize := dataSize)
  }

  /** `text` within the first 512 bytes of the `size` bytes at `offset`. */
  predicate Hint(bytes: seq<Byte>, offset: nat, size: nat, text: seq<Byte>) {
    var probe := Min(size, 512);
    CheckedRange(offset, probe, |bytes|)
    && exists at :: offset <= at <= offset + probe - |text| && MatchAt(bytes, at, text)
  }

  predicate XmpHint(bytes: seq<Byte>, offset: nat, size: nat) {
    || Hint(bytes, offset, size, Ascii("<?xpacket"))
    || Hint(bytes, offset, size, Ascii("<x:xmpmeta"))
    || Hint(bytes, offset, size, Ascii("<xmp:xmpmeta"))
    || Hint(bytes, offset, size, Ascii("<rdf:RDF"))
  }

  const EXIF: seq<Byte> := [0x45, 0x78, 0x69, 0x66]
  const XMP: seq<Byte> := Ascii("http://ns.adobe.com/xap/1.0/") + [0]
  const XMP_EXTENSION: seq<Byte> := Ascii("http://ns.adobe.com/xmp/extension/") + [0]
  const QVCI: seq<Byte> := [0x51, 0x56, 0x43, 0x49]
  const FLIR: seq<Byte> := [0x46, 0x4C, 0x49, 0x52]
  const ICC_PROFILE: seq<Byte> := Ascii("ICC_PROFILE") + [0]
  const MPF: seq<Byte> := [0x4D, 0x50, 0x46, 0]
  const PHOTOSHOP: seq<Byte> := Ascii("Photoshop 3.0") + [0]

  /** A TIFF header of either byte order. */
  predicate TiffAt(bytes: seq<Byte>, at: nat)
    requires at + 4 <= |bytes|
  {
    || (bytes[at] == 0x49 && bytes[at + 1] == 0x49 && bytes[at + 2] == 0x2A && bytes[at + 3] == 0)
    || (bytes[at] == 0x4D && bytes[at + 1] == 0x4D && bytes[at + 2] == 0 && bytes[at + 3] == 0x2A)
  }

  predicate MatchSegment(bytes: seq<Byte>, offset: nat, size: nat, s: seq<Byte>) {
    |s| <= size && CheckedRange(offset, size, |bytes|) && MatchAt(bytes, offset, s)
  }

  ghost predicate Scannable(bytes: seq<Byte>, s: Segment) {
    |bytes| <= SPAN_MAX && InBounds(bytes, s)
  }

  /** Application segment 1: Exif, XMP, extended XMP, or one of two vendor formats. */
  function ClassifyApp1(bytes: seq<Byte>, s: Segment): Option<Block>
    requires Scannable(bytes, s)
  {
    var (off, n) := (s.payloadOffset, s.payloadSize);
    if n >= 10 && MatchSegment(bytes, off, n, EXIF) && bytes[off + 4] == 0 then
      (if TiffAt(bytes, off + 6) then Some(Located(s, Exif, off + 6, n - 6)) else None)
    else if MatchSegment(bytes, off, n, XMP) then Some(Located(s, Xmp, off + 29, n - 29))
    else if XmpHint(bytes, off, n) then Some(Located(s, Xmp, off, n))
    else if MatchSegment(bytes, off, n, XMP_EXTENSION) then
      (if n >= 75 then XmpExtension(s, bytes[off + 35..off + 67], bytes[off + 67..off + 71], bytes[off + 71..off + 75])
       else None)
    else if n >= 4 && MatchSegment(bytes, off, n, QVCI) then
      Some(Located(s, MakerNote, off, n).(auxU32 := FourCC('Q', 'V', 'C', 'I')))
    else if n >= 8 && MatchSegment(bytes, off, n, FLIR) && bytes[off + 4] == 0 then
      Some(FlirPart(s, bytes[off + 6], bytes[off + 7]))
    else None
  }

  /** One part of an extended XMP packet: 32 bytes of GUID, the full length, and the offset of the part. */
  function XmpExtension(s: Segment, guid: seq<Byte>, full: seq<Byte>, start: seq<Byte>): Option<Block>
    requires s.payloadSize >= 75 && s.payloadOffset + s.payloadSize <= SPAN_MAX && s.totalOffset <= SPAN_MAX
             && s.totalSize <= SPAN_MAX
    requires |full| == 4 && |start| == 4
  {
    BeValueBound(full);
    BeValueBound(start);
    assert Pow256(4) == 0x1_0000_0000;
    Some(Located(s, BlockKind.XmpExtended, s.payloadOffset + 75, s.payloadSize - 75).(
           chunking := JpegXmpExtendedGuidOffset, logicalOffset := BeValue(start), logicalSize := BeValue(full),
               group := Fnv1a64(guid)))
  }

  function FlirPart(s: Segment, index: Byte, last: Byte): Block
    requires s.payloadSize >= 8 && s.payloadOffset + s.payloadSize <= SPAN_MAX && s.totalOffset <= SPAN_MAX
             && s.totalSize <= SPAN_MAX
  {
    Located(s, MakerNote, s.payloadOffset + 8, s.payloadSize - 8).(
      auxU32 := FourCC('F', 'L', 'I', 'R'), group := FourCC('F', 'L', 'I', 'R'),
      partIndex := index as int, partCount := last as int + 1)
  }

  /** Application segment 2: a part of an ICC profile, or a multi-picture index. */
  function ClassifyApp2(bytes: seq<Byte>, s: Segment): Option<Block>
    requires Scannable(bytes, s)
  {
    var (off, n) := (s.payloadOffset, s.payloadSize);
    if MatchSegment(bytes, off, n, ICC_PROFILE) then
      (if n >= 14 then Some(IccPart(s, bytes[off + 12], bytes[off + 13])) else None)
    else if MatchSegment(bytes, off, n, MPF) then Some(Located(s, Mpf, off + 4, n - 4))
    else None
  }

  function IccPart(s: Segment, index: Byte, total: Byte): Block
    requires s.payloadSize >= 14 && s.payloadOffset + s.payloadSize <= SPAN_MAX && s.totalOffset <= SPAN_MAX
             && s.totalSize <= SPAN_MAX
  {
    Located(s, Icc, s.payloadOffset + 14, s.payloadSize - 14).(
      chunking := JpegApp2SeqTotal, partIndex := if index > 0 then index as int - 1 else 0, partCount := total as int)
  }

  /** Application segment 4: a vendor block, tagged with its first four bytes. */
  function ClassifyApp4(bytes: seq<Byte>, s: Segment): Option<Block>
    requires Scannable(bytes, s)
  {
    var (off, n) := (s.payloadOffset, s.payloadSize);
    Some(Located(s, MakerNote, off, n).(auxU32 := if n >= 4 then Signature(bytes[off..off + 4]) else 0))
  }

  function Signature(four: seq<Byte>): U32
    requires |four| == 4
  {
    BeValueBound(four);
    assert Pow256(4) == 0x1_0000_0000;
    BeValue(four)
  }

  /** A JUMBF segment of application segment 11, from its first 16 or 24 payload bytes. */
  function JumbfPart(s: Segment, head: seq<Byte>): Option<Block>
    requires 16 <= |head| <= s.payloadSize && (s.payloadSize >= 24 ==> |head| == 24)
    requires s.payloadOffset + s.payloadSize <= SPAN_MAX && s.totalOffset <= SPAN_MAX && s.totalSize <= SPAN_MAX
  {
    var size32 := Signature(head[8..12]);
    var long := size32 == 1 && s.payloadSize >= 24;
    var headerSize := if long then 16 else 8;
    var boxSize: U64 := if long then Size64(head[16..24]) else size32;
    if boxSize >= headerSize && s.payloadSize >= 8 + headerSize then
      var hash := Fnv1a64(head[8..8 + headerSize]);
      Some(Located(s, Jumbf, s.payloadOffset + 8 + headerSize, s.payloadSize - (8 + headerSize)).(
             auxU32 := Signature(head[12..16]), partIndex := Signature(head[4..8]), logicalSize := boxSize,
             group := if hash == 0 then 1 else hash))
    else None
  }

  function Size64(eight: seq<Byte>): U64
    requires |eight| == 8
  {
    BeValueBound(eight);
    assert Pow256(8) == 0x1_0000_0000_0000_0000;
    BeValue(eight)
  }

  function ClassifyApp11(bytes: seq<Byte>, s: Segment): Option<Block>
    requires Scannable(bytes, s)
  {
    var (off, n) := (s.payloadOffset, s.payloadSize);
    if n >= 16 && bytes[off] == 0x4A && bytes[off + 1] == 0x50 then
      JumbfPart(s, bytes[off..off + if n >= 24 then 24 else 16])
    else None
  }

  function ClassifyApp13(bytes: seq<Byte>, s: Segment): Option<Block>
    requires Scannable(bytes, s)
  {
    var (off, n) := (s.payloadOffset, s.payloadSize);
    if MatchSegment(bytes, off, n, PHOTOSHOP) then
      Some(Located(s, PhotoshopIrB, off + 14, n - 14).(chunking := PsIrB8Bim))
    else None
  }

  /** The block of a segment, read from the whole file. */
  function Classify(bytes: seq<Byte>, s: Segment): Option<Block>
    requires Scannable(bytes, s)
  {
    if s.marker == 0xFFE1 then ClassifyApp1(bytes, s)
    else if s.marker == 0xFFE2 then ClassifyApp2(bytes, s)
    else if s.marker == 0xFFE4 then ClassifyApp4(bytes, s)
    else if s.marker == 0xFFEB then ClassifyApp11(bytes, s)
    else if s.marker == 0xFFED then ClassifyApp13(bytes, s)
    else if s.marker == 0xFFFE then Some(Located(s, Comment, s.payloadOffset, s.payloadSize))
    else None
  }

  // ----- the same from a prefix of the payload ---------------------------------------------------------

  /** How much of the payload the positional scanner reads. */
  function ProbeSize(marker: U16, payloadSize: nat): nat {
    var maximum :=
      if marker == 0xFFE1 then 512
      else if marker == 0xFFE2 then 14
      else if marker == 0xFFE4 then 4
      else if marker == 0xFFEB then 24
      else if marker == 0xFFED then 14
      else 0;
    Min(payloadSize, maximum)
  }

  ghost predicate Probed(s: Segment, prefix: seq<Byte>) {
    && |prefix| == ProbeSize(s.marker, s.payloadSize) && s.payloadSize < 0x10000
    && s.payloadOffset + s.payloadSize <= SPAN_MAX && s.totalOffset <= SPAN_MAX && s.totalSize <= SPAN_MAX
  }

  function ClassifyPrefix1(prefix: seq<Byte>, s: Segment): Option<Block>
    requires s.marker == 0xFFE1 && Probed(s, prefix)
  {
    var (off, n) := (s.payloadOffset, s.payloadSize);
    if n >= 10 && |prefix| >= 10 && MatchAt(prefix, 0, EXIF) && prefix[4] == 0 then
      (if TiffAt(prefix, 6) then Some(Located(s, Exif, off + 6, n - 6)) else None)
    else if MatchAt(prefix, 0, XMP) then Some(Located(s, Xmp, off + 29, n - 29))
    else if XmpHint(prefix, 0, |prefix|) then Some(Located(s, Xmp, off, n))
    else if MatchAt(prefix, 0, XMP_EXTENSION) then
      (if n >= 75 && |prefix| >= 75 then XmpExtension(s, prefix[35..67], prefix[67..71], prefix[71..75]) else None)
    else if n >= 4 && MatchAt(prefix, 0, QVCI) then
      Some(Located(s, MakerNote, off, n).(auxU32 := FourCC('Q', 'V', 'C', 'I')))
    else if n >= 8 && |prefix| >= 8 && MatchAt(prefix, 0, FLIR) && prefix[4] == 0 then
      Some(FlirPart(s, prefix[6], prefix[7]))
    else None
  }

  function ClassifyPrefix2(prefix: seq<Byte>, s: Segment): Option<Block>
    requires s.marker == 0xFFE2 && Probed(s, prefix)
  {
    var (off, n) := (s.payloadOffset, s.payloadSize);
    if MatchAt(prefix, 0, ICC_PROFILE) && n >= 14 && |prefix| >= 14 then Some(IccPart(s, prefix[12], prefix[13]))
    else if MatchAt(prefix, 0, MPF) then Some(Located(s, Mpf, off + 4, n - 4))
    else None
  }

  function ClassifyPrefix4(prefix: seq<Byte>, s: Segment): Option<Block>
    requires s.marker == 0xFFE4 && Probed(s, prefix)
  {
    Some(Located(s, MakerNote, s.payloadOffset,
                 s.payloadSize).(auxU32 := if s.payloadSize >= 4 then Signature(prefix[..4]) else 0))
  }

  function ClassifyPrefix11(prefix: seq<Byte>, s: Segment): Option<Block>
    requires s.marker == 0xFFEB && Probed(s, prefix)
  {
    if s.payloadSize >= 16 && |prefix| >= 16 && prefix[0] == 0x4A && prefix[1] == 0x50 then
      JumbfPart(s, prefix[..if s.payloadSize >= 24 then 24 else 16])
    else None
  }

  function ClassifyPrefix13(prefix: seq<Byte>, s: Segment): Option<Block>
    requires s.marker == 0xFFED && Probed(s, prefix)
  {
    if MatchAt(prefix, 0, PHOTOSHOP) then
      Some(Located(s, PhotoshopIrB, s.payloadOffset + 14, s.payloadSize - 14).(chunking := PsIrB8Bim))
    else None
  }

  function ClassifyPrefix(prefix: seq<Byte>, s: Segment): Option<Block>
    requires Probed(s, prefix)
  {
    var (off, n) := (s.payloadOffset, s.payloadSize);
    if s.marker == 0xFFE1 then ClassifyPrefix1(prefix, s)
    else if s.marker == 0xFFE2 then ClassifyPrefix2(prefix, s)
    else if s.marker == 0xFFE4 then ClassifyPrefix4(prefix, s)
    else if s.marker == 0xFFEB then ClassifyPrefix11(prefix, s)
    else if s.marker == 0xFFED then ClassifyPrefix13(prefix, s)
    else if s.marker == 0xFFFE then Some(Located(s, Comment, off, n))
    else None
  }

  // ----- the two agree ---------------------------------------------------------------------------------

  function PrefixOf(bytes: seq<Byte>, s: Segment): (r: seq<Byte>)
    requires Scannable(bytes, s)
    ensures |r| == ProbeSize(s.marker, s.payloadSize)
  {
    bytes[s.payloadOffset..s.payloadOffset + ProbeSize(s.marker, s.payloadSize)]
  }

  /** Slices of the prefix are slices of the payload. */
  lemma PrefixSlice(bytes: seq<Byte>, s: Segment, a: nat, b: nat)
    requires Scannable(bytes, s) && a <= b <= |PrefixOf(bytes, s)|
    ensures PrefixOf(bytes, s)[a..b] == bytes[s.payloadOffset + a..s.payloadOffset + b]
  {
    var p, q := PrefixOf(bytes, s)[a..b], bytes[s.payloadOffset + a..s.payloadOffset + b];
    assert |p| == |q|;
    assert forall i :: 0 <= i < |p| ==> p[i] == q[i];
  }

  lemma MatchAgrees(bytes: seq<Byte>, s: Segment, text: seq<Byte>)
    requires Scannable(bytes, s) && (|text| <= s.payloadSize ==> |text| <= |PrefixOf(bytes, s)|)
    ensures MatchAt(PrefixOf(bytes, s), 0, text) <==> MatchSegment(bytes, s.payloadOffset, s.payloadSize, text)
  {
    if |text| <= |PrefixOf(bytes, s)| {
      PrefixSlice(bytes, s, 0, |text|);
    }
  }

  lemma MatchAtShift(bytes: seq<Byte>, s: Segment, at: nat, text: seq<Byte>)
    requires Scannable(bytes, s) && at + |text| <= |PrefixOf(bytes, s)|
    ensures MatchAt(PrefixOf(bytes, s), at, text) <==> MatchAt(bytes, s.payloadOffset + at, text)
  {
    PrefixSlice(bytes, s, at, at + |text|);
  }

  lemma HintAgrees(bytes: seq<Byte>, s: Segment, text: seq<Byte>)
    requires Scannable(bytes, s) && s.marker == 0xFFE1
    ensures Hint(PrefixOf(bytes, s), 0, |PrefixOf(bytes, s)|, text) <==>
              Hint(bytes, s.payloadOffset, s.payloadSize, text)
  {
    hide MatchAt;
    var prefix, off := PrefixOf(bytes, s), s.payloadOffset;
    forall at: nat | at + |text| <= |prefix|
      ensures MatchAt(prefix, at, text) <==> MatchAt(bytes, off + at, text)
    {
      MatchAtShift(bytes, s, at, text);
    }
    if Hint(bytes, off, s.payloadSize, text) {
      var at :| off <= at <= off + |prefix| - |text| && MatchAt(bytes, at, text);
      assert MatchAt(prefix, at - off, text);
    }
  }

  lemma XmpHintAgrees(bytes: seq<Byte>, s: Segment)
    requires Scannable(bytes, s) && s.marker == 0xFFE1
    ensures XmpHint(PrefixOf(bytes, s), 0, |PrefixOf(bytes, s)|) <==> XmpHint(bytes, s.payloadOffset, s.payloadSize)
  {
    hide Hint;
    HintAgrees(bytes, s, Ascii("<?xpacket"));
    HintAgrees(bytes, s, Ascii("<x:xmpmeta"));
    HintAgrees(bytes, s, Ascii("<xmp:xmpmeta"));
    HintAgrees(bytes, s, Ascii("<rdf:RDF"));
  }

  lemma App1Agrees(bytes: seq<Byte>, s: Segment)
    requires Scannable(bytes, s) && s.marker == 0xFFE1
    ensures ClassifyPrefix1(PrefixOf(bytes, s), s) == ClassifyApp1(bytes, s)
  {
    hide MatchAt;
    hide MatchSegment;
    hide XmpHint;
    hide Located;
    hide XmpExtension;
    hide FlirPart;
    hide FourCC;
    XmpHintAgrees(bytes, s);
    MatchAgrees(bytes, s, EXIF);
    MatchAgrees(bytes, s, XMP);
    MatchAgrees(bytes, s, XMP_EXTENSION);
    MatchAgrees(bytes, s, QVCI);
    MatchAgrees(bytes, s, FLIR);
    if s.payloadSize >= 75 {
      PrefixSlice(bytes, s, 35, 67);
      PrefixSlice(bytes, s, 67, 71);
      PrefixSlice(bytes, s, 71, 75);
    }
  }

  lemma App2Agrees(bytes: seq<Byte>, s: Segment)
    requires Scannable(bytes, s) && s.marker == 0xFFE2
    ensures ClassifyPrefix2(PrefixOf(bytes, s), s) == ClassifyApp2(bytes, s)
  {
    MatchAgrees(bytes, s, ICC_PROFILE);
    MatchAgrees(bytes, s, MPF);
    assert ICC_PROFILE[0] != MPF[0];
  }

  lemma App4Agrees(bytes: seq<Byte>, s: Segment)
    requires Scannable(bytes, s) && s.marker == 0xFFE4
    ensures ClassifyPrefix4(PrefixOf(bytes, s), s) == ClassifyApp4(bytes, s)
  {
    if s.payloadSize >= 4 {
      PrefixSlice(bytes, s, 0, 4);
    }
  }

  lemma App11Agrees(bytes: seq<Byte>, s: Segment)
    requires Scannable(bytes, s) && s.marker == 0xFFEB
    ensures ClassifyPrefix11(PrefixOf(bytes, s), s) == ClassifyApp11(bytes, s)
  {
    hide JumbfPart;
    if s.payloadSize >= 16 {
      PrefixSlice(bytes, s, 0, if s.payloadSize >= 24 then 24 else 16);
    }
  }

  lemma App13Agrees(bytes: seq<Byte>, s: Segment)
    requires Scannable(bytes, s) && s.marker == 0xFFED
    ensures ClassifyPrefix13(PrefixOf(bytes, s), s) == ClassifyApp13(bytes, s)
  {
    MatchAgrees(bytes, s, PHOTOSHOP);
  }

  /** No more than 512 bytes of each payload decide which block a segment is. */
  lemma PrefixSuffices(bytes: seq<Byte>, s: Segment)
    requires Scannable(bytes, s)
    ensures ClassifyPrefix(PrefixOf(bytes, s), s) == Classify(bytes, s)
  {
    hide ClassifyApp1;
    hide ClassifyApp2;
    hide ClassifyApp4;
    hide ClassifyApp11;
    hide ClassifyApp13;
    hide ClassifyPrefix1;
    hide ClassifyPrefix2;
    hide ClassifyPrefix4;
    hide ClassifyPrefix11;
    hide ClassifyPrefix13;
    if s.marker == 0xFFE1 {
      App1Agrees(bytes, s);
    } else if s.marker == 0xFFE2 {
      App2Agrees(bytes, s);
    } else if s.marker == 0xFFE4 {
      App4Agrees(bytes, s);
    } else if s.marker == 0xFFEB {
      App11Agrees(bytes, s);
    } else if s.marker == 0xFFED {
      App13Agrees(bytes, s);
    }
  }
}
