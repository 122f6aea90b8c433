/**
 * The metadata that a writer can put into a JPEG segment, and the block that the scanners make of the
 * written segment: its kind, its numbers, and exactly the bytes behind the identifier.
 */
module JpegContents {
  import opened Bytes
  import opened Blocks
  import opened JpegSegments
  import opened JpegScan
  import opened JumbfRoundTrip

  // ----- identifiers ------------------------------------------------------------------------------

  /** "Exif", 0. */
  const EXIF_ID: seq<Byte> := [0x45, 0x78, 0x69, 0x66, 0x00]

  /** "http://ns.adobe.com/xap/1.0/", 0. */
  const XMP_ID: seq<Byte> := [
    0x68, 0x74, 0x74, 0x70, 0x3A, 0x2F, 0x2F, 0x6E, 0x73, 0x2E, 0x61, 0x64, 0x6F, 0x62, 0x65, 0x2E, 0x63, 0x6F, 0x6D,
    0x2F, 0x78, 0x61, 0x70, 0x2F, 0x31, 0x2E, 0x30, 0x2F, 0x00]

  /** "http://ns.adobe.com/xmp/extension/", 0. */
  const EXTENSION_ID: seq<Byte> := [
    0x68, 0x74, 0x74, 0x70, 0x3A, 0x2F, 0x2F, 0x6E, 0x73, 0x2E, 0x61, 0x64, 0x6F, 0x62, 0x65, 0x2E, 0x63, 0x6F, 0x6D,
    0x2F, 0x78, 0x6D, 0x70, 0x2F, 0x65, 0x78, 0x74, 0x65, 0x6E, 0x73, 0x69, 0x6F, 0x6E, 0x2F, 0x00]

  /** "ICC_PROFILE", 0. */
  const ICC_ID: seq<Byte> := [0x49, 0x43, 0x43, 0x5F, 0x50, 0x52, 0x4F, 0x46, 0x49, 0x4C, 0x45, 0x00]

  /** "MPF", 0. */
  const MPF_ID: seq<Byte> := [0x4D, 0x50, 0x46, 0x00]

  /** "Photoshop 3.0", 0. */
  const PHOTOSHOP_ID: seq<Byte> := [
    0x50, 0x68, 0x6F, 0x74, 0x6F, 0x73, 0x68, 0x6F, 0x70, 0x20, 0x33, 0x2E, 0x30, 0x00]

  /** "FLIR", 0. */
  const FLIR_ID: seq<Byte> := [0x46, 0x4C, 0x49, 0x52, 0x00]

  /** "QVCI". */
  const CASIO_ID: seq<Byte> := [0x51, 0x56, 0x43, 0x49]

  /** The texts that give away an XMP packet: "<?xpacket", "<x:xmpmeta", "<xmp:xmpmeta" and "<rdf:RDF". */
  const HINTS: seq<seq<Byte>> := [
    [0x3C, 0x3F, 0x78, 0x70, 0x61, 0x63, 0x6B, 0x65, 0x74],
    [0x3C, 0x78, 0x3A, 0x78, 0x6D, 0x70, 0x6D, 0x65, 0x74, 0x61],
    [0x3C, 0x78, 0x6D, 0x70, 0x3A, 0x78, 0x6D, 0x70, 0x6D, 0x65, 0x74, 0x61],
    [0x3C, 0x72, 0x64, 0x66, 0x3A, 0x52, 0x44, 0x46]]

  lemma Identifiers()
    ensures EXIF + [0] == EXIF_ID && XMP == XMP_ID && XMP_EXTENSION == EXTENSION_ID && ICC_PROFILE == ICC_ID
    ensures MPF == MPF_ID && PHOTOSHOP == PHOTOSHOP_ID && FLIR + [0] == FLIR_ID && QVCI == CASIO_ID
    ensures Ascii("<?xpacket") == HINTS[0] && Ascii("<x:xmpmeta") == HINTS[1]
    ensures Ascii("<xmp:xmpmeta") == HINTS[2] && Ascii("<rdf:RDF") == HINTS[3]
  {
  }

  // ----- written segments ------------------------------------------------------------------------------

  datatype Content =
    | ExifData(filler: Byte, tiff: seq<Byte>)
    | XmpPacket(xml: seq<Byte>)
    | XmpPart(guid: seq<Byte>, full: U32, start: U32, piece: seq<Byte>)
    | IccPiece(number: nat, count: nat, piece: seq<Byte>)
    | MultiPicture(data: seq<Byte>)
    | Photoshop(data: seq<Byte>)
    | Flir(filler: Byte, index: Byte, last: Byte, data: seq<Byte>)
    | Casio(data: seq<Byte>)
    | Remark(text: seq<Byte>)
    | Vendor(data: seq<Byte>)

  predicate ProperContent(c: Content) {
    match c
    case ExifData(_, tiff) =>
      |tiff| >= 4 && (tiff[..4] == [0x49, 0x49, 0x2A, 0x00] || tiff[..4] == [0x4D, 0x4D, 0x00, 0x2A])
    case XmpPart(guid, _, _, _) => |guid| == 32
    case IccPiece(number, count, _) => number < count <= 255
    case _ => true
  }

  function LowOf(c: Content): Byte {
    match c
    case IccPiece(_, _, _) => 0xE2
    case MultiPicture(_) => 0xE2
    case Photoshop(_) => 0xED
    case Remark(_) => 0xFE
    case Vendor(_) => 0xE4
    case _ => 0xE1
  }

  /** What stands in front of the data. */
  function HeadOfContent(c: Content): seq<Byte>
    requires ProperContent(c)
  {
    match c
    case ExifData(filler, _) => EXIF_ID + [filler]
    case XmpPacket(_) => XMP_ID
    case XmpPart(guid, full, start, _) => EXTENSION_ID + guid + BeBytes(full, 4) + BeBytes(start, 4)
    case IccPiece(number, count, _) => ICC_ID + [(number + 1) as Byte, count as Byte]
    case MultiPicture(_) => MPF_ID
    case Photoshop(_) => PHOTOSHOP_ID
    case Flir(filler, index, last, _) => FLIR_ID + [filler, index, last]
    case Casio(_) => []
    case Remark(_) => []
    case Vendor(_) => []
  }

  function DataOf(c: Content): seq<Byte> {
    match c
    case ExifData(_, tiff) => tiff
    case XmpPacket(xml) => xml
    case XmpPart(_, _, _, piece) => piece
    case IccPiece(_, _, piece) => piece
    case MultiPicture(data) => data
    case Photoshop(data) => data
    case Flir(_, _, _, data) => data
    case Casio(data) => CASIO_ID + data
    case Remark(text) => text
    case Vendor(data) => data
  }

  function FrameFor(c: Content): Frame
    requires ProperContent(c)
  {
    Frame(LowOf(c), HeadOfContent(c) + DataOf(c))
  }

  /** The text stands somewhere in the first 512 bytes. */
  ghost predicate ShowsText(p: seq<Byte>, text: seq<Byte>) { exists at :: TextAt(p, at, text) }

  predicate TextAt(p: seq<Byte>, at: int, text: seq<Byte>) {
    0 <= at && at + |text| <= Min(|p|, 512) && p[at..at + |text|] == text
  }

  /** One of the texts of an XMP packet stands in the first 512 bytes of a payload. */
  ghost predicate LooksLikeXmp(p: seq<Byte>) {
    ShowsText(p, HINTS[0]) || ShowsText(p, HINTS[1]) || ShowsText(p, HINTS[2]) || ShowsText(p, HINTS[3])
  }

  /** The fields of a block that do not depend on where the segment lies. */
  function Described(c: Content): Block
    requires ProperContent(c)
  {
    var plain := NO_BLOCK.(format := Jpeg);
    match c
    case ExifData(_, _) => plain.(kind := BlockKind.Exif, id := 0xFFE1)
    case XmpPacket(_) => plain.(kind := BlockKind.Xmp, id := 0xFFE1)
    case XmpPart(guid, full, start, _) =>
      plain.(kind := BlockKind.XmpExtended, id := 0xFFE1, chunking := JpegXmpExtendedGuidOffset,
             logicalOffset := start, logicalSize := full, group := Fnv1a64(guid))
    case IccPiece(number, count, _) =>
      plain.(kind := BlockKind.Icc, id := 0xFFE2, chunking := JpegApp2SeqTotal, partIndex := number,
             partCount := count)
    case MultiPicture(_) => plain.(kind := BlockKind.Mpf, id := 0xFFE2)
    case Photoshop(_) => plain.(kind := BlockKind.PhotoshopIrB, id := 0xFFED, chunking := PsIrB8Bim)
    case Flir(_, index, last, _) =>
      plain.(kind := BlockKind.MakerNote, id := 0xFFE1, auxU32 := 0x464C4952, group := 0x464C4952,
             partIndex := index as int, partCount := last as int + 1)
    case Casio(_) => plain.(kind := BlockKind.MakerNote, id := 0xFFE1, auxU32 := 0x51564349)
    case Remark(_) => plain.(kind := BlockKind.Comment, id := 0xFFFE)
    case Vendor(data) =>
      plain.(kind := BlockKind.MakerNote, id := 0xFFE4, auxU32 := if |data| >= 4 then Signature(data[..4]) else 0)
  }

  /** The block of a segment that holds the content. */
  ghost predicate IsBlockOf(file: seq<Byte>, s: Segment, b: Block, c: Content)
    requires ProperContent(c)
  {
    && b.outerOffset == s.totalOffset && b.outerSize == s.totalSize
    && b.dataOffset + b.dataSize <= |file| && file[b.dataOffset..b.dataOffset + b.dataSize] == DataOf(c)
    && b == Described(c).(outerOffset := b.outerOffset, outerSize := b.outerSize, dataOffset := b.dataOffset,
                          dataSize := b.dataSize)
  }

  // ----- reading a frame --------------------------------------------------------------------------------

  lemma FrameSlice(file: seq<Byte>, s: Segment, f: Frame, a: nat, b: nat)
    requires IsFrame(file, s, f) && a <= b <= |f.payload|
    ensures s.payloadOffset + b <= |file| && file[s.payloadOffset + a..s.payloadOffset + b] == f.payload[a..b]
  {
    SliceOfSlice(file, s.payloadOffset, |f.payload|, a, b - a);
  }

  lemma FrameByte(file: seq<Byte>, s: Segment, f: Frame, i: nat)
    requires IsFrame(file, s, f) && i < |f.payload|
    ensures s.payloadOffset + i < |file| && file[s.payloadOffset + i] == f.payload[i]
  {
    FrameSlice(file, s, f, i, i + 1);
    assert file[s.payloadOffset + i] == file[s.payloadOffset + i..s.payloadOffset + (i + 1)][0];
    assert f.payload[i] == f.payload[i..i + 1][0];
  }

  lemma MatchInFrame(file: seq<Byte>, s: Segment, f: Frame, pattern: seq<Byte>)
    requires IsFrame(file, s, f)
    ensures MatchSegment(file, s.payloadOffset, s.payloadSize, pattern) <==> pattern <= f.payload
  {
    if |pattern| <= |f.payload| {
      FrameSlice(file, s, f, 0, |pattern|);
      assert f.payload[0..|pattern|] == f.payload[..|pattern|];
    }
  }

  lemma TextInFrame(file: seq<Byte>, s: Segment, f: Frame, text: seq<Byte>, at: nat)
    requires IsFrame(file, s, f)
    ensures TextAt(f.payload, at, text)
            <==> at + |text| <= Min(s.payloadSize, 512) && MatchAt(file, s.payloadOffset + at, text)
  {
    if at + |text| <= Min(s.payloadSize, 512) {
      FrameSlice(file, s, f, at, at + |text|);
    }
  }

  lemma HintInFrame(file: seq<Byte>, s: Segment, f: Frame, text: seq<Byte>)
    requires IsFrame(file, s, f)
    ensures Hint(file, s.payloadOffset, s.payloadSize, text) <==> ShowsText(f.payload, text)
  {
    var off := s.payloadOffset;
    assert CheckedRange(off, Min(s.payloadSize, 512), |file|);
    if Hint(file, off, s.payloadSize, text) {
      var at :| off <= at <= off + Min(s.payloadSize, 512) - |text| && MatchAt(file, at, text);
      hide *;
      TextInFrame(file, s, f, text, at - off);
      ShownAt(f.payload, at - off, text);
    }
    if ShowsText(f.payload, text) {
      var at :| TextAt(f.payload, at, text);
      assert at >= 0;
      hide TextAt;
      hide IsFrame;
      TextInFrame(file, s, f, text, at);
      hide MatchAt;
      assert MatchAt(file, off + at, text);
    }
  }

  lemma ShownAt(p: seq<Byte>, at: nat, text: seq<Byte>)
    requires TextAt(p, at, text)
    ensures ShowsText(p, text)
  {
  }

  lemma XmpHintInFrame(file: seq<Byte>, s: Segment, f: Frame)
    requires IsFrame(file, s, f)
    ensures XmpHint(file, s.payloadOffset, s.payloadSize) <==> LooksLikeXmp(f.payload)
  {
    Identifiers();
    hide Hint;
    hide ShowsText;
    HintInFrame(file, s, f, HINTS[0]);
    HintInFrame(file, s, f, HINTS[1]);
    HintInFrame(file, s, f, HINTS[2]);
    HintInFrame(file, s, f, HINTS[3]);
  }

  // ----- what the scanner makes of each content ------------------------------------------------------------

  lemma BehindFront(h: seq<Byte>, n: seq<Byte>)
    ensures (h + n)[|h|..|h| + |n|] == n
  {
  }

  /** The data stands behind the head. */
  lemma DataBehindHead(file: seq<Byte>, s: Segment, c: Content)
    requires ProperContent(c) && IsFrame(file, s, FrameFor(c)) && |file| <= SPAN_MAX
    ensures var h, n := |HeadOfContent(c)|, |DataOf(c)|;
            && Scannable(file, s) && s.payloadSize == h + n && s.payloadOffset + h + n <= |file|
            && s.totalOffset <= SPAN_MAX && s.totalSize <= SPAN_MAX
            && file[s.payloadOffset + h..s.payloadOffset + h + n] == DataOf(c)
  {
    var h, n := HeadOfContent(c), DataOf(c);
    hide HeadOfContent;
    hide DataOf;
    FrameSlice(file, s, FrameFor(c), |h|, |h| + |n|);
    BehindFront(h, n);
  }

  /** The block with the fields of the content over the right range is the block of the content. */
  lemma BlockIsOf(file: seq<Byte>, s: Segment, b: Block, c: Content)
    requires ProperContent(c) && IsFrame(file, s, FrameFor(c)) && |file| <= SPAN_MAX
    requires b.outerOffset == s.totalOffset && b.outerSize == s.totalSize
    requires b.dataOffset == s.payloadOffset + |HeadOfContent(c)| && b.dataSize == |DataOf(c)|
    requires b == Described(c).(outerOffset := b.outerOffset, outerSize := b.outerSize, dataOffset := b.dataOffset,
                                dataSize := b.dataSize)
    ensures IsBlockOf(file, s, b, c)
  {
    DataBehindHead(file, s, c);
    hide HeadOfContent;
    hide DataOf;
    hide Described;
    hide IsFrame;
  }

  lemma RemarkIsFound(file: seq<Byte>, s: Segment, c: Content)
    requires c.Remark? && IsFrame(file, s, FrameFor(c)) && |file| <= SPAN_MAX
    ensures Scannable(file, s) && Classify(file, s).Some? && IsBlockOf(file, s, Classify(file, s).value, c)
  {
    DataBehindHead(file, s, c);
    BlockIsOf(file, s, Classify(file, s).value, c);
    hide IsBlockOf;
  }

  lemma VendorIsFound(file: seq<Byte>, s: Segment, c: Content)
    requires c.Vendor? && IsFrame(file, s, FrameFor(c)) && |file| <= SPAN_MAX
    ensures Scannable(file, s) && Classify(file, s).Some? && IsBlockOf(file, s, Classify(file, s).value, c)
  {
    DataBehindHead(file, s, c);
    var data, f := c.data, FrameFor(c);
    assert HeadOfContent(c) == [] && DataOf(c) == data && f.payload == data && s.marker == 0xFFE4;
    if |data| >= 4 {
      FrameSlice(file, s, f, 0, 4);
      assert f.payload[0..4] == data[..4];
    }
    hide Signature;
    hide IsFrame;
    hide DataOf;
    hide HeadOfContent;
    hide FrameFor;
    var b := Classify(file, s).value;
    assert b == Described(c).(outerOffset := s.totalOffset, outerSize := s.totalSize, dataOffset := s.payloadOffset,
                              dataSize := |data|);
    hide Classify;
    BlockIsOf(file, s, b, c);
    hide IsBlockOf;
  }

  lemma PhotoshopIsFound(file: seq<Byte>, s: Segment, c: Content)
    requires c.Photoshop? && IsFrame(file, s, FrameFor(c)) && |file| <= SPAN_MAX
    ensures Scannable(file, s) && Classify(file, s).Some? && IsBlockOf(file, s, Classify(file, s).value, c)
  {
    DataBehindHead(file, s, c);
    Identifiers();
    MatchInFrame(file, s, FrameFor(c), PHOTOSHOP);
    hide MatchSegment;
    BlockIsOf(file, s, Classify(file, s).value, c);
    hide IsBlockOf;
  }

  lemma IccPieceIsFound(file: seq<Byte>, s: Segment, c: Content)
    requires c.IccPiece? && ProperContent(c) && IsFrame(file, s, FrameFor(c)) && |file| <= SPAN_MAX
    ensures Scannable(file, s) && Classify(file, s).Some? && IsBlockOf(file, s, Classify(file, s).value, c)
  {
    var f := FrameFor(c);
    DataBehindHead(file, s, c);
    Identifiers();
    MatchInFrame(file, s, f, ICC_PROFILE);
    FrameByte(file, s, f, 12);
    FrameByte(file, s, f, 13);
    assert f.payload[12] as int == c.number + 1 && f.payload[13] as int == c.count;
    hide MatchSegment;
    hide IsFrame;
    BlockIsOf(file, s, Classify(file, s).value, c);
    hide IsBlockOf;
  }

  lemma MultiPictureIsFound(file: seq<Byte>, s: Segment, c: Content)
    requires c.MultiPicture? && IsFrame(file, s, FrameFor(c)) && |file| <= SPAN_MAX
    ensures Scannable(file, s) && Classify(file, s).Some? && IsBlockOf(file, s, Classify(file, s).value, c)
  {
    var f := FrameFor(c);
    DataBehindHead(file, s, c);
    Identifiers();
    MatchInFrame(file, s, f, ICC_PROFILE);
    MatchInFrame(file, s, f, MPF);
    assert f.payload[0] == 0x4D;
    hide MatchSegment;
    BlockIsOf(file, s, Classify(file, s).value, c);
    hide IsBlockOf;
  }

  lemma ExifIsFound(file: seq<Byte>, s: Segment, c: Content)
    requires c.ExifData? && ProperContent(c) && IsFrame(file, s, FrameFor(c)) && |file| <= SPAN_MAX
    ensures Scannable(file, s) && Classify(file, s).Some? && IsBlockOf(file, s, Classify(file, s).value, c)
  {
    var f := FrameFor(c);
    DataBehindHead(file, s, c);
    Identifiers();
    MatchInFrame(file, s, f, EXIF);
    FrameByte(file, s, f, 4);
    FrameByte(file, s, f, 6);
    FrameByte(file, s, f, 7);
    FrameByte(file, s, f, 8);
    FrameByte(file, s, f, 9);
    assert f.payload == EXIF_ID + [c.filler] + c.tiff;
    assert EXIF <= f.payload && f.payload[4] == 0;
    var tiff := c.tiff[..4];
    assert f.payload[6] == tiff[0] && f.payload[7] == tiff[1] && f.payload[8] == tiff[2] && f.payload[9] == tiff[3];
    hide MatchSegment;
    hide IsFrame;
    hide XmpHint;
    BlockIsOf(file, s, Classify(file, s).value, c);
    hide IsBlockOf;
  }

  /** A segment 1 whose payload starts like none of the first two kinds. */
  lemma NotExifNotXmp(file: seq<Byte>, s: Segment, f: Frame)
    requires IsFrame(file, s, f) && f.low == 0xE1 && |file| <= SPAN_MAX && !(XMP_ID <= f.payload)
    requires |f.payload| > 0 && f.payload[0] != 0x45
    ensures Scannable(file, s) && !MatchSegment(file, s.payloadOffset, s.payloadSize, EXIF)
    ensures !MatchSegment(file, s.payloadOffset, s.payloadSize, XMP)
  {
    Identifiers();
    MatchInFrame(file, s, f, EXIF);
    MatchInFrame(file, s, f, XMP);
  }

  lemma XmpPacketIsFound(file: seq<Byte>, s: Segment, c: Content)
    requires c.XmpPacket? && IsFrame(file, s, FrameFor(c)) && |file| <= SPAN_MAX
    ensures Scannable(file, s) && Classify(file, s).Some? && IsBlockOf(file, s, Classify(file, s).value, c)
  {
    var f := FrameFor(c);
    DataBehindHead(file, s, c);
    Identifiers();
    MatchInFrame(file, s, f, EXIF);
    MatchInFrame(file, s, f, XMP);
    assert XMP_ID <= f.payload && f.payload[0] == 0x68;
    hide MatchSegment;
    hide XmpHint;
    BlockIsOf(file, s, Classify(file, s).value, c);
    hide IsBlockOf;
  }

  /** Content of the kinds that are looked for after the texts of an XMP packet. */
  predicate ComesAfterHints(c: Content) { c.XmpPart? || c.Flir? || c.Casio? }

  /** If these texts are met first, the whole payload is taken for an XMP packet. */
  lemma HintedIsPacket(file: seq<Byte>, s: Segment, f: Frame)
    requires IsFrame(file, s, f) && f.low == 0xE1 && |file| <= SPAN_MAX && !(XMP_ID <= f.payload)
    requires |f.payload| > 0 && f.payload[0] != 0x45 && LooksLikeXmp(f.payload)
    ensures Scannable(file, s)
    ensures Classify(file, s) == Some(Located(s, BlockKind.Xmp, s.payloadOffset, s.payloadSize))
  {
    NotExifNotXmp(file, s, f);
    XmpHintInFrame(file, s, f);
    hide MatchSegment;
    hide XmpHint;
    hide LooksLikeXmp;
  }

  lemma XmpPartIsFound(file: seq<Byte>, s: Segment, c: Content)
    requires c.XmpPart? && ProperContent(c) && IsFrame(file, s, FrameFor(c)) && |file| <= SPAN_MAX
    requires !LooksLikeXmp(FrameFor(c).payload)
    ensures Scannable(file, s) && Classify(file, s).Some? && IsBlockOf(file, s, Classify(file, s).value, c)
  {
    var f := FrameFor(c);
    PartHead(c);
    NotExifNotXmp(file, s, f);
    XmpHintInFrame(file, s, f);
    Identifiers();
    MatchInFrame(file, s, f, XMP_EXTENSION);
    DataBehindHead(file, s, c);
    FrameSlice(file, s, f, 35, 67);
    FrameSlice(file, s, f, 67, 71);
    FrameSlice(file, s, f, 71, 75);
    assert s.marker == 0xFFE1;
    hide *;
    ExtensionIsRead(file, s, c.guid, BeBytes(c.full, 4), BeBytes(c.start, 4));
    PartFields(s, c);
    BlockIsOf(file, s, Classify(file, s).value, c);
  }

  lemma ExtensionIsRead(file: seq<Byte>, s: Segment, guid: seq<Byte>, full: seq<Byte>, start: seq<Byte>)
    requires Scannable(file, s) && s.marker == 0xFFE1 && s.payloadSize >= 75 && |full| == 4 && |start| == 4
    requires s.payloadOffset + s.payloadSize <= SPAN_MAX && s.totalOffset <= SPAN_MAX && s.totalSize <= SPAN_MAX
    requires !MatchSegment(file, s.payloadOffset, s.payloadSize, EXIF)
    requires !MatchSegment(file, s.payloadOffset, s.payloadSize, XMP)
    requires !XmpHint(file, s.payloadOffset, s.payloadSize)
    requires MatchSegment(file, s.payloadOffset, s.payloadSize, XMP_EXTENSION)
    requires s.payloadOffset + 75 <= |file| && file[s.payloadOffset + 35..s.payloadOffset + 67] == guid
    requires file[s.payloadOffset + 67..s.payloadOffset + 71] == full
             && file[s.payloadOffset + 71..s.payloadOffset + 75] == start
    ensures Classify(file, s) == XmpExtension(s, guid, full, start)
  {
    hide MatchSegment;
    hide XmpHint;
    hide XmpExtension;
  }

  lemma PartFields(s: Segment, c: Content)
    requires c.XmpPart? && ProperContent(c) && s.marker == 0xFFE1 && s.payloadSize == 75 + |c.piece|
    requires s.payloadOffset + s.payloadSize <= SPAN_MAX && s.totalOffset <= SPAN_MAX && s.totalSize <= SPAN_MAX
    ensures var b := XmpExtension(s, c.guid, BeBytes(c.full, 4), BeBytes(c.start, 4));
            && b.Some?
            && b.value == Described(c).(outerOffset := s.totalOffset, outerSize := s.totalSize,
                                        dataOffset := s.payloadOffset + 75, dataSize := |c.piece|)
  {
    assert Pow256(4) == 0x1_0000_0000;
    BeRoundTrip(c.full, 4);
    BeRoundTrip(c.start, 4);
    hide BeValue;
    hide BeBytes;
    hide Fnv1a64;
  }

  /** A FLIR or Casio segment starts with letters of its own. */
  lemma FlirIsFound(file: seq<Byte>, s: Segment, c: Content)
    requires c.Flir? && IsFrame(file, s, FrameFor(c)) && |file| <= SPAN_MAX && !LooksLikeXmp(FrameFor(c).payload)
    ensures Scannable(file, s) && Classify(file, s).Some? && IsBlockOf(file, s, Classify(file, s).value, c)
  {
    var f := FrameFor(c);
    DataBehindHead(file, s, c);
    assert f.payload[0] == 0x46 && f.payload[4] == 0 && f.payload[6] == c.index && f.payload[7] == c.last;
    NotExifNotXmp(file, s, f);
    XmpHintInFrame(file, s, f);
    Identifiers();
    MatchInFrame(file, s, f, XMP_EXTENSION);
    MatchInFrame(file, s, f, QVCI);
    MatchInFrame(file, s, f, FLIR);
    FrameByte(file, s, f, 4);
    FrameByte(file, s, f, 6);
    FrameByte(file, s, f, 7);
    assert FLIR <= f.payload;
    hide MatchSegment;
    hide XmpHint;
    hide IsFrame;
    hide LooksLikeXmp;
    BlockIsOf(file, s, Classify(file, s).value, c);
    hide IsBlockOf;
  }

  lemma CasioIsFound(file: seq<Byte>, s: Segment, c: Content)
    requires c.Casio? && IsFrame(file, s, FrameFor(c)) && |file| <= SPAN_MAX && !LooksLikeXmp(FrameFor(c).payload)
    ensures Scannable(file, s) && Classify(file, s).Some? && IsBlockOf(file, s, Classify(file, s).value, c)
  {
    var f := FrameFor(c);
    DataBehindHead(file, s, c);
    assert f.payload == CASIO_ID + c.data && f.payload[0] == 0x51;
    NotExifNotXmp(file, s, f);
    XmpHintInFrame(file, s, f);
    Identifiers();
    MatchInFrame(file, s, f, XMP_EXTENSION);
    MatchInFrame(file, s, f, QVCI);
    hide MatchSegment;
    hide XmpHint;
    hide IsFrame;
    hide LooksLikeXmp;
    BlockIsOf(file, s, Classify(file, s).value, c);
    hide IsBlockOf;
  }

  /** The scanner finds what was written, whatever it is, unless it takes it for an XMP packet. */
  lemma ContentIsFound(file: seq<Byte>, s: Segment, c: Content)
    requires ProperContent(c) && IsFrame(file, s, FrameFor(c)) && |file| <= SPAN_MAX
    requires ComesAfterHints(c) ==> !LooksLikeXmp(FrameFor(c).payload)
    ensures Scannable(file, s) && Classify(file, s).Some? && IsBlockOf(file, s, Classify(file, s).value, c)
  {
    hide IsFrame;
    hide Classify;
    hide IsBlockOf;
    hide FrameFor;
    hide Scannable;
    match c
    case ExifData(_, _) => ExifIsFound(file, s, c);
    case XmpPacket(_) => XmpPacketIsFound(file, s, c);
    case XmpPart(_, _, _, _) => XmpPartIsFound(file, s, c);
    case IccPiece(_, _, _) => IccPieceIsFound(file, s, c);
    case MultiPicture(_) => MultiPictureIsFound(file, s, c);
    case Photoshop(_) => PhotoshopIsFound(file, s, c);
    case Flir(_, _, _, _) => FlirIsFound(file, s, c);
    case Casio(_) => CasioIsFound(file, s, c);
    case Remark(_) => RemarkIsFound(file, s, c);
    case Vendor(_) => VendorIsFound(file, s, c);
  }

  lemma PartHead(c: Content)
    requires c.XmpPart? && ProperContent(c)
    ensures var p := FrameFor(c).payload;
            && |HeadOfContent(c)| == 75 && |p| == 75 + |c.piece| && p[0] == 0x68 && EXTENSION_ID <= p && !(XMP_ID <= p)
            && p[35..67] == c.guid && p[67..71] == BeBytes(c.full, 4) && p[71..75] == BeBytes(c.start, 4)
  {
    var p := FrameFor(c).payload;
    assert p == EXTENSION_ID + c.guid + BeBytes(c.full, 4) + BeBytes(c.start, 4) + c.piece;
    assert p[21] == 0x6D;
    assert XMP_ID[21] == 0x61;
  }
}
