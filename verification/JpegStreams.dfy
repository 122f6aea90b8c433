/**
 * ICC profiles and extended XMP packets that are cut over JPEG segments and read back: from the bytes
 * of the file, through the scan, to the extracted profile or packet.
 */
module JpegStreams {
  import opened Bytes
  import opened Blocks
  import opened BlockSinks
  import opened JpegSegments
  import opened JpegScan
  import opened JumbfGroups
  import opened JumbfRoundTrip
  import opened JpegContents
  import opened JpegPlaces
  import opened StreamMembers
  import opened SplitStreams
  import PS = PayloadSpec
  import PT = PayloadTheorems
  import opened PartSort

  /** The frames `at`, in the order of the file, are those of the numbered pieces, each once. */
  ghost predicate Scattered(frames: seq<Frame>, at: seq<nat>, numbers: seq<nat>, count: nat) {
    && |at| == |numbers| == count > 0
    && (forall i, j :: 0 <= i < j < |at| ==> at[i] < at[j])
    && (forall i :: 0 <= i < |at| ==> at[i] < |frames| && numbers[i] < count)
    && (forall i, j :: 0 <= i < j < |numbers| ==> numbers[i] != numbers[j])
  }

  /** The places of the found frames `at` in the list of blocks. */
  function PlacesOf(found: seq<Option<Block>>, at: seq<nat>): (order: seq<U32>)
    requires |Somes(found)| <= U32_MAX && forall i :: 0 <= i < |at| ==> at[i] < |found| && found[at[i]].Some?
    ensures |order| == |at| && forall i :: 0 <= i < |at| ==> order[i] == Place(found, at[i]) < |Somes(found)|
  {
    AllAtPlace(found, at);
    seq(|at|, i requires 0 <= i < |at| => Place(found, at[i]))
  }

  lemma AllAtPlace(found: seq<Option<Block>>, at: seq<nat>)
    requires forall i :: 0 <= i < |at| ==> at[i] < |found| && found[at[i]].Some?
    ensures forall i :: 0 <= i < |at| ==> Place(found, at[i]) < |Somes(found)|
  {
    hide Place;
    forall i | 0 <= i < |at| ensures Place(found, at[i]) < |Somes(found)| {
      AtPlace(found, at[i]);
    }
  }

  lemma PlacesAscend(found: seq<Option<Block>>, at: seq<nat>)
    requires |Somes(found)| <= U32_MAX && forall i :: 0 <= i < |at| ==> at[i] < |found| && found[at[i]].Some?
    requires forall i, j :: 0 <= i < j < |at| ==> at[i] < at[j]
    ensures Increasing(PlacesOf(found, at))
  {
    hide Place;
    var order := PlacesOf(found, at);
    forall i, j | 0 <= i < j < |order| ensures order[i] < order[j] {
      AtPlace(found, at[i]);
    }
  }

  /** A block of a scanned file is that of a frame, up to the normalisation of JUMBF parts. */
  lemma BlockOfFrame(file: seq<Byte>, segments: seq<Segment>, found: seq<Option<Block>>, blocks: seq<Block>, j: nat)
    returns (i: nat)
    requires FoundIn(file, segments, found, blocks) && j < |blocks|
    ensures i < |segments| && found[i].Some? && Place(found, i) == j && Kept(blocks[j], found[i].value)
  {
    hide Place;
    hide Kept;
    assert found[..|found|] == found;
    i := PlaceOf(found, |found|, j);
    AtPlace(found, i);
  }

  /** A frame that is found and is no JUMBF part is at its place in the list. */
  lemma FrameInBlocks(file: seq<Byte>, segments: seq<Segment>, found: seq<Option<Block>>, blocks: seq<Block>, i: nat)
    requires FoundIn(file, segments, found, blocks) && i < |found| && found[i].Some? && found[i].value.kind != Jumbf
    ensures Place(found, i) < |blocks| && blocks[Place(found, i)] == found[i].value
  {
    hide Place;
    AtPlace(found, i);
  }

  // ----- profiles ---------------------------------------------------------------------------------------

  /** The frame is read as part of a profile in `count` pieces. */
  predicate IsIccFrame(f: Frame, count: nat) {
    && f.low == 0xE2 && |f.payload| >= 14 && f.payload[..12] == ICC_ID
    && (f.payload[13] == 0 || f.payload[13] as nat == count)
  }

  /** A profile cut into pieces, which stand in any order among any other segments. */
  ghost predicate WritesProfile(frames: seq<Frame>, pieces: seq<seq<Byte>>, at: seq<nat>, numbers: seq<nat>) {
    && Scattered(frames, at, numbers, |pieces|) && |pieces| <= 255
    && (forall i :: 0 <= i < |frames| ==> ProperFrame(frames[i]))
    && (forall i :: 0 <= i < |at| ==> frames[at[i]] == FrameFor(IccPiece(numbers[i], |pieces|, pieces[numbers[i]])))
    && (forall i :: 0 <= i < |frames| && i !in at ==> !IsIccFrame(frames[i], |pieces|))
  }

  lemma ForeignIsNotIcc(file: seq<Byte>, s: Segment, f: Frame, count: nat)
    requires IsFrame(file, s, f) && |file| <= SPAN_MAX && count > 0 && !IsIccFrame(f, count)
    ensures Classify(file, s).Some? ==> NotIccBlock(Classify(file, s).value, Jpeg, count)
  {
    Identifiers();
    MatchInFrame(file, s, f, ICC_PROFILE);
    if |f.payload| >= 14 {
      FrameByte(file, s, f, 13);
    }
    hide MatchSegment;
    hide XmpHint;
    hide IsFrame;
    hide XmpExtension;
    hide JumbfPart;
    hide FlirPart;
    if s.marker != 0xFFE2 {
      OtherKinds(file, s);
    }
  }

  /** Segments of other markers are no profiles. */
  lemma OtherKinds(file: seq<Byte>, s: Segment)
    requires Scannable(file, s) && s.marker != 0xFFE2
    ensures Classify(file, s).Some? ==> Classify(file, s).value.kind != BlockKind.Icc
  {
    hide MatchSegment;
    hide XmpHint;
  }

  lemma IccFrameIsFound(file: seq<Byte>, s: Segment, number: nat, count: nat, piece: seq<Byte>)
    requires number < count <= 255 && |file| <= SPAN_MAX && IsFrame(file, s, FrameFor(IccPiece(number, count, piece)))
    ensures Scannable(file, s) && Classify(file, s).Some?
    ensures var b := Classify(file, s).value; IccBlock(b, Jpeg, number, count) && Holds(file, b, piece)
  {
    IccPieceIsFound(file, s, IccPiece(number, count, piece));
    hide Classify;
    hide IsFrame;
  }

  /** The blocks of the scan hold the profile. */
  lemma ProfileIsFound(frames: seq<Frame>, pieces: seq<seq<Byte>>, at: seq<nat>, numbers: seq<nat>,
                       file: seq<Byte>, segments: seq<Segment>, found: seq<Option<Block>>, blocks: seq<Block>)
    returns (order: seq<U32>)
    requires WritesProfile(frames, pieces, at, numbers)
    requires AreFrames(file, segments, frames) && FoundIn(file, segments, found, blocks)
    ensures HoldsProfile(file, blocks, Jpeg, pieces, |pieces|, order, numbers)
  {
    forall i | 0 <= i < |at|
      ensures found[at[i]].Some? && IccBlock(found[at[i]].value, Jpeg, numbers[i], |pieces|)
      ensures Holds(file, found[at[i]].value, pieces[numbers[i]])
    {
      assert IsFrame(file, segments[at[i]], frames[at[i]]);
      IccFrameIsFound(file, segments[at[i]], numbers[i], |pieces|, pieces[numbers[i]]);
    }
    order := PlacesOf(found, at);
    PlacesAscend(found, at);
    hide Classify;
    hide Holds;
    hide Place;
    forall i | 0 <= i < |order|
      ensures IccBlock(blocks[order[i]], Jpeg, numbers[i], |pieces|)
      ensures Holds(file, blocks[order[i]], pieces[numbers[i]])
    {
      FrameInBlocks(file, segments, found, blocks, at[i]);
    }
    forall j: U32 | j < |blocks| && j !in order ensures NotIccBlock(blocks[j], Jpeg, |pieces|) {
      OthersAreNotIcc(frames, pieces, at, numbers, file, segments, found, blocks, order, j);
    }
  }

  lemma OthersAreNotIcc(frames: seq<Frame>, pieces: seq<seq<Byte>>, at: seq<nat>, numbers: seq<nat>, file: seq<Byte>,
                        segments: seq<Segment>, found: seq<Option<Block>>, blocks: seq<Block>, order: seq<U32>, j: nat)
    requires WritesProfile(frames, pieces, at, numbers)
    requires AreFrames(file, segments, frames) && FoundIn(file, segments, found, blocks)
    requires |order| == |at| && forall i :: 0 <= i < |at| ==> at[i] < |found| && order[i] == Place(found, at[i])
    requires j < |blocks| && j !in order
    ensures NotIccBlock(blocks[j], Jpeg, |pieces|)
  {
    hide Place;
    hide Classify;
    var i := BlockOfFrame(file, segments, found, blocks, j);
    assert i !in at && IsFrame(file, segments[i], frames[i]);
    ForeignIsNotIcc(file, segments[i], frames[i], |pieces|);
  }

  /**
   * The round trip of a profile: cut into up to 255 pieces, written in any order among any other
   * segments, scanned, and extracted from any of its blocks, it is what it was.
   */
  lemma ProfileSurvives(frames: seq<Frame>, tail: seq<Byte>, capacity: U32, pieces: seq<seq<Byte>>, at: seq<nat>,
                        numbers: seq<nat>)
    returns (order: seq<U32>)
    requires WritesProfile(frames, pieces, at, numbers) && ProperTail(tail)
    requires |WriteFile(frames, tail)| <= SPAN_MAX && Scan(WriteFile(frames, tail), capacity).needed <= capacity
    ensures var file := WriteFile(frames, tail);
            var blocks := Scan(file, capacity).blocks;
            && Scan(file, capacity).status == Ok && HoldsProfile(file, blocks, Jpeg, pieces, |pieces|, order, numbers)
            && forall k, scratch, options ::
                 0 <= k < |order| && Admitted(|pieces|, |Concat(pieces)|, scratch, options) ==>
                   PS.Extraction(file, blocks, order[k], scratch, options) == PS.Stream(Concat(pieces))
  {
    var file := WriteFile(frames, tail);
    var segments, found := ScanOfFrames(frames, tail, capacity);
    var blocks := Scan(file, capacity).blocks;
    order := ProfileIsFound(frames, pieces, at, numbers, file, segments, found, blocks);
    assert |order| == |pieces| && |blocks| <= U32_MAX && forall k :: 0 <= k < |order| ==> order[k] < |blocks|;
    hide *;
    forall k, scratch, options | 0 <= k < |order| && Admitted(|pieces|, |Concat(pieces)|, scratch, options)
      ensures |Concat(pieces)| <= U64_MAX
      ensures PS.Extraction(file, blocks, order[k], scratch, options) == PS.Stream(Concat(pieces))
    {
      assert |Concat(pieces)| <= U64_MAX by { AdmittedFits(|pieces|, |Concat(pieces)|, scratch, options); }
      ProfileExtracts(file, blocks, Jpeg, pieces, |pieces|, order, numbers, k, scratch, options);
    }
  }

  lemma AdmittedFits(count: nat, size: nat, scratch: nat, options: PS.PayloadOptions)
    requires Admitted(count, size, scratch, options)
    ensures size <= U64_MAX
  {
  }

  // ----- packets -------------------------------------------------------------------------------------------

  /** The frame is read as part of a packet of this group and size, unless it looks like a packet itself. */
  predicate IsPartFrame(f: Frame, guid: seq<Byte>, size: nat) {
    && f.low == 0xE1 && |f.payload| >= 75 && f.payload[..35] == EXTENSION_ID
    && Fnv1a64(f.payload[35..67]) == Fnv1a64(guid)
    && (BeValue(f.payload[67..71]) == 0 || BeValue(f.payload[67..71]) == size)
  }

  /** The segment of piece `n` of a packet. */
  function PartOf(guid: seq<Byte>, pieces: seq<seq<Byte>>, n: nat): Content
    requires n < |pieces| && |Concat(pieces)| <= U32_MAX
  {
    StartFits(pieces, n);
    XmpPart(guid, |Concat(pieces)|, StartOf(pieces, n), pieces[n])
  }

  lemma StartFits(pieces: seq<seq<Byte>>, n: nat)
    requires n <= |pieces|
    ensures StartOf(pieces, n) <= |Concat(pieces)|
  {
    ConcatJoin(pieces[..n], pieces[n..]);
    assert pieces[..n] + pieces[n..] == pieces;
  }

  /** A packet cut into pieces, none empty, which stand in any order among any other segments. */
  ghost predicate WritesPacket(frames: seq<Frame>, guid: seq<Byte>, pieces: seq<seq<Byte>>, at: seq<nat>,
                               numbers: seq<nat>) {
    && |guid| == 32 && Scattered(frames, at, numbers, |pieces|) && |Concat(pieces)| <= U32_MAX
    && (forall n :: 0 <= n < |pieces| ==> pieces[n] != [])
    && (forall i :: 0 <= i < |frames| ==> ProperFrame(frames[i]))
    && (forall i :: 0 <= i < |at| ==> frames[at[i]] == FrameFor(PartOf(guid, pieces, numbers[i])))
    && (forall i :: 0 <= i < |frames| && i !in at ==> !IsPartFrame(frames[i], guid, |Concat(pieces)|))
  }

  /** No part shows the texts of an XMP packet in its first 512 bytes. */
  ghost predicate NoneHinted(frames: seq<Frame>, at: seq<nat>)
    requires forall i :: 0 <= i < |at| ==> at[i] < |frames|
  {
    forall i :: 0 <= i < |at| ==> !LooksLikeXmp(frames[at[i]].payload)
  }

  lemma OnlySegment1Extends(file: seq<Byte>, s: Segment)
    requires Scannable(file, s) && Classify(file, s).Some? && Classify(file, s).value.kind == BlockKind.XmpExtended
    ensures s.marker == 0xFFE1 && s.payloadSize >= 75
    ensures MatchSegment(file, s.payloadOffset, s.payloadSize, XMP_EXTENSION)
    ensures var off := s.payloadOffset;
            Classify(file, s) == XmpExtension(s, file[off + 35..off + 67], file[off + 67..off + 71],
                                              file[off + 71..off + 75])
  {
    hide MatchSegment;
    hide XmpHint;
  }

  /** What is read as part of a packet starts with the identifier, and has its group and size behind it. */
  lemma PartFieldsOfFrame(file: seq<Byte>, s: Segment, f: Frame)
    requires IsFrame(file, s, f) && |file| <= SPAN_MAX
    requires Classify(file, s).Some? && Classify(file, s).value.kind == BlockKind.XmpExtended
    ensures f.low == 0xE1 && |f.payload| >= 75 && f.payload[..35] == EXTENSION_ID
    ensures Classify(file, s) == XmpExtension(s, f.payload[35..67], f.payload[67..71], f.payload[71..75])
  {
    hide Classify;
    hide XmpExtension;
    hide MatchSegment;
    OnlySegment1Extends(file, s);
    MatchInFrame(file, s, f, XMP_EXTENSION);
    assert s.payloadSize == |f.payload| && s.marker == 0xFF00 + f.low as int;
    FrameSlice(file, s, f, 35, 67);
    FrameSlice(file, s, f, 67, 71);
    FrameSlice(file, s, f, 71, 75);
    hide *;
    StartsWith(f.payload);
  }

  lemma StartsWith(p: seq<Byte>)
    requires XMP_EXTENSION <= p
    ensures |p| >= 35 && p[..35] == EXTENSION_ID
  {
    Identifiers();
  }

  lemma ForeignIsNotPart(file: seq<Byte>, s: Segment, f: Frame, guid: seq<Byte>, size: nat)
    requires IsFrame(file, s, f) && |file| <= SPAN_MAX && size > 0 && !IsPartFrame(f, guid, size)
    ensures Classify(file, s).Some? ==> NotXmpBlock(Classify(file, s).value, Jpeg, Fnv1a64(guid), size)
  {
    hide Classify;
    hide Fnv1a64;
    if Classify(file, s).Some? && Classify(file, s).value.kind == BlockKind.XmpExtended {
      PartFieldsOfFrame(file, s, f);
      hide IsFrame;
      hide BeValue;
    }
  }

  lemma PartFrameIsFound(file: seq<Byte>, s: Segment, guid: seq<Byte>, pieces: seq<seq<Byte>>, n: nat)
    requires n < |pieces| && |Concat(pieces)| <= U32_MAX && |guid| == 32 && |file| <= SPAN_MAX
    requires IsFrame(file, s, FrameFor(PartOf(guid, pieces, n)))
    ensures Scannable(file, s) && Classify(file, s).Some?
    ensures var b := Classify(file, s).value;
            if LooksLikeXmp(FrameFor(PartOf(guid, pieces, n)).payload) then b.kind == BlockKind.Xmp
            else XmpBlock(b, Jpeg, Fnv1a64(guid), StartOf(pieces, n), |Concat(pieces)|) && Holds(file, b, pieces[n])
  {
    var c := PartOf(guid, pieces, n);
    PartHead(c);
    var f := FrameFor(c);
    assert f.low == 0xE1 && |guid| == 32;
    hide *;
    if LooksLikeXmp(f.payload) {
      HintedIsPacket(file, s, f);
      LocatedKind(s, BlockKind.Xmp);
    } else {
      XmpPartIsFound(file, s, c);
      PartBlockFields(file, s, Classify(file, s).value, guid, pieces, n);
    }
  }

  lemma LocatedKind(s: Segment, kind: BlockKind)
    requires s.payloadOffset + s.payloadSize <= SPAN_MAX && s.totalOffset <= SPAN_MAX && s.totalSize <= SPAN_MAX
    ensures Located(s, kind, s.payloadOffset, s.payloadSize).kind == kind
  {
  }

  lemma PartBlockFields(file: seq<Byte>, s: Segment, b: Block, guid: seq<Byte>, pieces: seq<seq<Byte>>, n: nat)
    requires n < |pieces| && |Concat(pieces)| <= U32_MAX && |guid| == 32
    requires IsBlockOf(file, s, b, PartOf(guid, pieces, n))
    ensures XmpBlock(b, Jpeg, Fnv1a64(guid), StartOf(pieces, n), |Concat(pieces)|) && Holds(file, b, pieces[n])
  {
    hide StartOf;
    hide Fnv1a64;
  }

  /** What the scan makes of the parts: those that look like a packet are lost. */
  ghost predicate PartsFound(file: seq<Byte>, frames: seq<Frame>, guid: seq<Byte>, pieces: seq<seq<Byte>>,
                             at: seq<nat>, numbers: seq<nat>, found: seq<Option<Block>>)
    requires |at| == |numbers| && |Concat(pieces)| <= U32_MAX
  {
    forall i :: 0 <= i < |at| ==>
      && at[i] < |frames| == |found| && numbers[i] < |pieces| && found[at[i]].Some?
      && var b := found[at[i]].value;
         if LooksLikeXmp(frames[at[i]].payload) then b.kind == BlockKind.Xmp
         else XmpBlock(b, Jpeg, Fnv1a64(guid), StartOf(pieces, numbers[i]), |Concat(pieces)|)
              && Holds(file, b, pieces[numbers[i]])
  }

  lemma PartsAreFound(frames: seq<Frame>, guid: seq<Byte>, pieces: seq<seq<Byte>>, at: seq<nat>, numbers: seq<nat>,
                      file: seq<Byte>, segments: seq<Segment>, found: seq<Option<Block>>, blocks: seq<Block>)
    requires WritesPacket(frames, guid, pieces, at, numbers)
    requires AreFrames(file, segments, frames) && FoundIn(file, segments, found, blocks)
    ensures PartsFound(file, frames, guid, pieces, at, numbers, found)
  {
    hide Classify;
    hide LooksLikeXmp;
    hide XmpBlock;
    hide Holds;
    hide Place;
    hide Fnv1a64;
    hide StartOf;
    forall i | 0 <= i < |at|
      ensures
        && at[i] < |frames| == |found| && numbers[i] < |pieces| && found[at[i]].Some?
        && var b := found[at[i]].value;
           if LooksLikeXmp(frames[at[i]].payload) then b.kind == BlockKind.Xmp
           else XmpBlock(b, Jpeg, Fnv1a64(guid), StartOf(pieces, numbers[i]), |Concat(pieces)|)
                && Holds(file, b, pieces[numbers[i]])
    {
      assert IsFrame(file, segments[at[i]], frames[at[i]]);
      PartFrameIsFound(file, segments[at[i]], guid, pieces, numbers[i]);
    }
  }

  /** A block of the stream is that of one of the parts. */
  lemma StreamBlockIsPart(frames: seq<Frame>, guid: seq<Byte>, pieces: seq<seq<Byte>>, at: seq<nat>,
                          numbers: seq<nat>, file: seq<Byte>, segments: seq<Segment>, found: seq<Option<Block>>,
                          blocks: seq<Block>, j: nat)
    returns (k: nat)
    requires WritesPacket(frames, guid, pieces, at, numbers) && |Concat(pieces)| > 0
    requires AreFrames(file, segments, frames) && FoundIn(file, segments, found, blocks)
    requires PartsFound(file, frames, guid, pieces, at, numbers, found)
    requires j < |blocks| && !NotXmpBlock(blocks[j], Jpeg, Fnv1a64(guid), |Concat(pieces)|)
    ensures k < |at| && at[k] < |found| && found[at[k]] == Some(blocks[j]) && Place(found, at[k]) == j
    ensures !LooksLikeXmp(frames[at[k]].payload)
  {
    hide Place;
    hide Classify;
    hide LooksLikeXmp;
    hide Fnv1a64;
    hide StartOf;
    var i := BlockOfFrame(file, segments, found, blocks, j);
    assert IsFrame(file, segments[i], frames[i]);
    if i !in at {
      ForeignIsNotPart(file, segments[i], frames[i], guid, |Concat(pieces)|);
    }
    k :| 0 <= k < |at| && at[k] == i;
  }

  /** A part that begins like a packet, as the first one of a packet does, is taken for one. */
  lemma FirstPartIsHinted(guid: seq<Byte>, full: U32, start: U32, piece: seq<Byte>)
    requires |guid| == 32 && |piece| >= 10 && piece[..10] == HINTS[1]
    ensures LooksLikeXmp(FrameFor(XmpPart(guid, full, start, piece)).payload)
  {
    var c := XmpPart(guid, full, start, piece);
    var p := FrameFor(c).payload;
    PartHead(c);
    assert p == HeadOfContent(c) + piece;
    assert p[75..85] == piece[..10];
    assert TextAt(p, 75, HINTS[1]);
  }

  /** If all parts are found, the blocks of the scan hold the packet. */
  lemma PacketIsFound(frames: seq<Frame>, guid: seq<Byte>, pieces: seq<seq<Byte>>, at: seq<nat>, numbers: seq<nat>,
                      file: seq<Byte>, segments: seq<Segment>, found: seq<Option<Block>>, blocks: seq<Block>)
    returns (order: seq<U32>)
    requires WritesPacket(frames, guid, pieces, at, numbers) && NoneHinted(frames, at)
    requires AreFrames(file, segments, frames) && FoundIn(file, segments, found, blocks)
    requires PartsFound(file, frames, guid, pieces, at, numbers, found)
    ensures PlacesKnown(found, at, order)
    ensures HoldsPacket(file, blocks, Jpeg, Fnv1a64(guid), pieces, |Concat(pieces)|, order, numbers)
  {
    assert |guid| == 32 && Scattered(frames, at, numbers, |pieces|);
    assert |Concat(pieces)| <= U32_MAX && |found| == |frames|;
    assert forall n :: 0 <= n < |pieces| ==> pieces[n] != [];
    PacketNotEmpty(pieces);
    order := PlacesOf(found, at);
    PlacesAscend(found, at);
    assert |blocks| <= U32_MAX && |order| == |at|;
    hide *;
    forall i | 0 <= i < |order|
      ensures order[i] < |blocks| && numbers[i] < |pieces|
      ensures XmpBlock(blocks[order[i]], Jpeg, Fnv1a64(guid), StartOf(pieces, numbers[i]), |Concat(pieces)|)
      ensures Holds(file, blocks[order[i]], pieces[numbers[i]])
    {
      OwnPart(frames, guid, pieces, at, numbers, file, segments, found, blocks, order, i);
    }
    forall j: U32 | j < |blocks| && j !in order
      ensures NotXmpBlock(blocks[j], Jpeg, Fnv1a64(guid), |Concat(pieces)|)
    {
      OthersAreNoParts(frames, guid, pieces, at, numbers, file, segments, found, blocks, order, j);
    }
    PacketIsHeld(frames, file, blocks, guid, pieces, at, order, numbers);
  }

  lemma OwnPart(frames: seq<Frame>, guid: seq<Byte>, pieces: seq<seq<Byte>>, at: seq<nat>, numbers: seq<nat>,
                file: seq<Byte>, segments: seq<Segment>, found: seq<Option<Block>>, blocks: seq<Block>,
                order: seq<U32>, i: nat)
    requires WritesPacket(frames, guid, pieces, at, numbers) && NoneHinted(frames, at)
    requires AreFrames(file, segments, frames) && FoundIn(file, segments, found, blocks)
    requires PartsFound(file, frames, guid, pieces, at, numbers, found)
    requires PlacesKnown(found, at, order) && i < |order|
    ensures order[i] < |blocks| && numbers[i] < |pieces|
    ensures XmpBlock(blocks[order[i]], Jpeg, Fnv1a64(guid), StartOf(pieces, numbers[i]), |Concat(pieces)|)
    ensures Holds(file, blocks[order[i]], pieces[numbers[i]])
  {
    var j := FoundPart(frames, guid, pieces, at, numbers, file, segments, found, blocks, i);
    hide Place;
    hide FoundIn;
    hide AreFrames;
    hide PartsFound;
    hide WritesPacket;
    hide XmpBlock;
    hide Holds;
  }

  lemma OthersAreNoParts(frames: seq<Frame>, guid: seq<Byte>, pieces: seq<seq<Byte>>, at: seq<nat>,
                         numbers: seq<nat>, file: seq<Byte>, segments: seq<Segment>, found: seq<Option<Block>>,
                         blocks: seq<Block>, order: seq<U32>, j: nat)
    requires WritesPacket(frames, guid, pieces, at, numbers) && |Concat(pieces)| > 0
    requires AreFrames(file, segments, frames) && FoundIn(file, segments, found, blocks)
    requires PartsFound(file, frames, guid, pieces, at, numbers, found)
    requires PlacesKnown(found, at, order) && j < |blocks| && j !in order
    ensures NotXmpBlock(blocks[j], Jpeg, Fnv1a64(guid), |Concat(pieces)|)
  {
    if !NotXmpBlock(blocks[j], Jpeg, Fnv1a64(guid), |Concat(pieces)|) {
      hide NotXmpBlock;
      hide Place;
      hide PartsFound;
      var k := StreamBlockIsPart(frames, guid, pieces, at, numbers, file, segments, found, blocks, j);
      assert false;
    }
  }

  lemma PacketIsHeld(frames: seq<Frame>, file: seq<Byte>, blocks: seq<Block>, guid: seq<Byte>,
                     pieces: seq<seq<Byte>>, at: seq<nat>, order: seq<U32>, numbers: seq<nat>)
    requires Scattered(frames, at, numbers, |pieces|) && |order| == |at| && Increasing(order)
    requires |blocks| <= U32_MAX && forall n :: 0 <= n < |pieces| ==> pieces[n] != []
    requires forall i :: 0 <= i < |order| ==>
               && order[i] < |blocks| && numbers[i] < |pieces|
               && XmpBlock(blocks[order[i]], Jpeg, Fnv1a64(guid), StartOf(pieces, numbers[i]), |Concat(pieces)|)
               && Holds(file, blocks[order[i]], pieces[numbers[i]])
    requires forall j: U32 :: j < |blocks| && j !in order ==>
               NotXmpBlock(blocks[j], Jpeg, Fnv1a64(guid), |Concat(pieces)|)
    ensures HoldsPacket(file, blocks, Jpeg, Fnv1a64(guid), pieces, |Concat(pieces)|, order, numbers)
  {
    hide XmpBlock;
    hide NotXmpBlock;
    hide Holds;
    hide StartOf;
    hide Fnv1a64;
    hide Increasing;
  }

  lemma PacketNotEmpty(pieces: seq<seq<Byte>>)
    requires pieces != [] && forall n :: 0 <= n < |pieces| ==> pieces[n] != []
    ensures |Concat(pieces)| > 0
  {
  }

  /** The numbers are the places of the frames. */
  ghost predicate PlacesKnown(found: seq<Option<Block>>, at: seq<nat>, order: seq<U32>) {
    |order| == |at| && forall i :: 0 <= i < |at| ==> at[i] < |found| && order[i] == Place(found, at[i])
  }

  // ----- parts that are lost ---------------------------------------------------------------------------------

  /** The part is one of the pieces, at its place, and not piece `lost`. */
  ghost predicate OtherPiece(b: Block, pieces: seq<seq<Byte>>, lost: nat, n: nat) {
    n < |pieces| && n != lost && b.logicalOffset == StartOf(pieces, n) && b.dataSize == |pieces[n]|
  }

  lemma {:induction false} CoveredBy(blocks: seq<Block>, parts: seq<U32>, n: nat, x: nat) returns (i: nat)
    requires n <= |parts| && PS.ValidParts(parts, blocks) && x < PS.TotalSize(blocks, parts, n)
    ensures i < n
    ensures PS.TotalSize(blocks, parts, i) <= x < PS.TotalSize(blocks, parts, i) + blocks[parts[i]].dataSize
  {
    if x < PS.TotalSize(blocks, parts, n - 1) {
      i := CoveredBy(blocks, parts, n - 1, x);
    } else {
      i := n - 1;
    }
  }

  /** Parts among which a piece is missing do not tile the packet. */
  lemma MissingPieceIsGap(file: seq<Byte>, blocks: seq<Block>, parts: seq<U32>, pieces: seq<seq<Byte>>, lost: nat,
                          numberOf: seq<nat>, options: PS.PayloadOptions)
    requires PS.ValidParts(parts, blocks) && lost < |pieces| && |Concat(pieces)| <= U32_MAX
    requires |numberOf| == |parts| && forall n :: 0 <= n < |pieces| ==> pieces[n] != []
    requires forall i :: 0 <= i < |parts| ==> OtherPiece(blocks[parts[i]], pieces, lost, numberOf[i])
    ensures PS.OffsetParts(file, blocks, parts, |Concat(pieces)|, options).status != PS.Ok
  {
    if PS.OffsetParts(file, blocks, parts, |Concat(pieces)|, options).status == PS.Ok {
      PT.OffsetStreamTiles(file, blocks, parts, |Concat(pieces)|, options);
      hide PS.OffsetParts;
      hide PT.Placed;
      NextStart(pieces, lost);
      StartFits(pieces, lost + 1);
      hide PS.TotalSize;
      var i := CoveredBy(blocks, parts, |parts|, StartOf(pieces, lost));
      assert OtherPiece(blocks[parts[i]], pieces, lost, numberOf[i]);
      var n := numberOf[i];
      NextStart(pieces, n);
      if n < lost {
        StartsAscend(pieces, n + 1, lost);
      } else {
        StartsAscend(pieces, lost + 1, n);
      }
      assert false;
    }
  }

  /** The first `n` members hold the pieces with these numbers, and none of them the lost one. */
  ghost predicate MembersHold(blocks: seq<Block>, members: seq<U32>, n: nat, pieces: seq<seq<Byte>>, lost: nat,
                              numberOf: seq<nat>) {
    && PS.ValidParts(members, blocks) && |numberOf| == n <= |members|
    && forall i :: 0 <= i < n ==> OtherPiece(blocks[members[i]], pieces, lost, numberOf[i])
  }

  /** The members match blocks of this group and size. */
  ghost predicate InStream(blocks: seq<Block>, members: seq<U32>, guid: seq<Byte>, size: nat) {
    && PS.ValidParts(members, blocks)
    && forall i :: 0 <= i < |members| ==> !NotXmpBlock(blocks[members[i]], Jpeg, Fnv1a64(guid), size)
  }

  lemma OneMoreHolds(blocks: seq<Block>, members: seq<U32>, n: nat, pieces: seq<seq<Byte>>, lost: nat,
                     numberOf: seq<nat>, x: nat)
    requires MembersHold(blocks, members, n, pieces, lost, numberOf) && n < |members|
    requires OtherPiece(blocks[members[n]], pieces, lost, x)
    ensures MembersHold(blocks, members, n + 1, pieces, lost, numberOf + [x])
  {
    hide OtherPiece;
  }

  lemma MembersAreParts(frames: seq<Frame>, guid: seq<Byte>, pieces: seq<seq<Byte>>, at: seq<nat>,
                        numbers: seq<nat>, file: seq<Byte>, segments: seq<Segment>, found: seq<Option<Block>>,
                        blocks: seq<Block>, members: seq<U32>, lost: nat, n: nat)
    returns (numberOf: seq<nat>)
    requires WritesPacket(frames, guid, pieces, at, numbers) && |Concat(pieces)| > 0
    requires AreFrames(file, segments, frames) && FoundIn(file, segments, found, blocks)
    requires PartsFound(file, frames, guid, pieces, at, numbers, found)
    requires lost < |at| && at[lost] < |frames| && LooksLikeXmp(frames[at[lost]].payload)
    requires n <= |members| && InStream(blocks, members, guid, |Concat(pieces)|)
    ensures MembersHold(blocks, members, n, pieces, numbers[lost], numberOf)
  {
    numberOf := [];
    if n > 0 {
      assert members[n - 1] < |blocks|
             && !NotXmpBlock(blocks[members[n - 1]], Jpeg, Fnv1a64(guid), |Concat(pieces)|);
      assert |at| == |numbers| && |guid| == 32 && |Concat(pieces)| <= U32_MAX;
      hide *;
      numberOf := MembersAreParts(frames, guid, pieces, at, numbers, file, segments, found, blocks, members, lost,
                                  n - 1);
      var k := StreamBlockIsPart(frames, guid, pieces, at, numbers, file, segments, found, blocks, members[n - 1]);
      PartIsOther(frames, guid, pieces, at, numbers, file, found, lost, k);
      OneMoreHolds(blocks, members, n - 1, pieces, numbers[lost], numberOf, numbers[k]);
      numberOf := numberOf + [numbers[k]];
    }
  }

  lemma PartIsOther(frames: seq<Frame>, guid: seq<Byte>, pieces: seq<seq<Byte>>, at: seq<nat>, numbers: seq<nat>,
                    file: seq<Byte>, found: seq<Option<Block>>, lost: nat, k: nat)
    requires WritesPacket(frames, guid, pieces, at, numbers)
    requires PartsFound(file, frames, guid, pieces, at, numbers, found)
    requires lost < |at| && LooksLikeXmp(frames[at[lost]].payload)
    requires k < |at| && !LooksLikeXmp(frames[at[k]].payload)
    ensures at[k] < |found| && found[at[k]].Some?
    ensures OtherPiece(found[at[k]].value, pieces, numbers[lost], numbers[k])
  {
    hide LooksLikeXmp;
    hide StartOf;
    hide Fnv1a64;
    assert k != lost && numbers[k] != numbers[lost];
  }

  /** The stream of a part that was found, when another one is lost: it cannot be extracted. */
  lemma LostPacket(frames: seq<Frame>, guid: seq<Byte>, pieces: seq<seq<Byte>>, at: seq<nat>, numbers: seq<nat>,
                   file: seq<Byte>, segments: seq<Segment>, found: seq<Option<Block>>, blocks: seq<Block>,
                   seedIndex: U32, lost: nat, scratch: nat, options: PS.PayloadOptions)
    requires WritesPacket(frames, guid, pieces, at, numbers)
    requires AreFrames(file, segments, frames) && FoundIn(file, segments, found, blocks)
    requires PartsFound(file, frames, guid, pieces, at, numbers, found)
    requires lost < |at| && at[lost] < |frames| && LooksLikeXmp(frames[at[lost]].payload)
    requires seedIndex < |blocks| <= U32_MAX && |file| <= SPAN_MAX
    requires exists start :: XmpBlock(blocks[seedIndex], Jpeg, Fnv1a64(guid), start, |Concat(pieces)|)
    ensures PS.Extraction(file, blocks, seedIndex, scratch, options).status != PS.Ok
  {
    var seed := blocks[seedIndex];
    assert |Concat(pieces)| <= U32_MAX && numbers[lost] < |pieces|;
    assert forall n :: 0 <= n < |pieces| ==> pieces[n] != [];
    PacketNotEmpty(pieces);
    var start :| XmpBlock(seed, Jpeg, Fnv1a64(guid), start, |Concat(pieces)|);
    var members := PS.Members(seed, blocks, |blocks|);
    MembersInStream(blocks, seed, guid, |Concat(pieces)|, start);
    var parts := SortByKey(members, PS.OffsetKeys(blocks));
    SortByKeyIsStableSort(members, PS.OffsetKeys(blocks));
    assert |members| <= |blocks|;
    hide *;
    SortedInStream(blocks, members, parts, guid, |Concat(pieces)|);
    var numberOf := MembersAreParts(frames, guid, pieces, at, numbers, file, segments, found, blocks, parts, lost,
                                    |parts|);
    StreamIsMalformed(file, blocks, members, parts, pieces, numbers[lost], numberOf, seedIndex, Fnv1a64(guid), start,
                      scratch, options);
  }

  lemma MembersInStream(blocks: seq<Block>, seed: Block, guid: seq<Byte>, size: nat, start: nat)
    requires |blocks| <= U32_MAX && size > 0 && XmpBlock(seed, Jpeg, Fnv1a64(guid), start, size)
    ensures InStream(blocks, PS.Members(seed, blocks, |blocks|), guid, size)
  {
    hide PS.Members;
    hide Fnv1a64;
  }

  lemma SortedInStream(blocks: seq<Block>, members: seq<U32>, parts: seq<U32>, guid: seq<Byte>, size: nat)
    requires InStream(blocks, members, guid, size) && multiset(parts) == multiset(members)
    ensures InStream(blocks, parts, guid, size)
  {
    hide NotXmpBlock;
    forall i | 0 <= i < |parts|
      ensures parts[i] < |blocks| && !NotXmpBlock(blocks[parts[i]], Jpeg, Fnv1a64(guid), size)
    {
      assert parts[i] in multiset(members);
      var k :| 0 <= k < |members| && members[k] == parts[i];
    }
  }

  lemma StreamIsMalformed(file: seq<Byte>, blocks: seq<Block>, members: seq<U32>, parts: seq<U32>,
                          pieces: seq<seq<Byte>>, lost: nat, numberOf: seq<nat>, seedIndex: U32, group: U64,
                          start: nat, scratch: nat, options: PS.PayloadOptions)
    requires |file| <= SPAN_MAX && seedIndex < |blocks| <= U32_MAX && lost < |pieces| && |Concat(pieces)| <= U32_MAX
    requires forall n :: 0 <= n < |pieces| ==> pieces[n] != []
    requires members == PS.Members(blocks[seedIndex], blocks, |blocks|)
    requires parts == SortByKey(members, PS.OffsetKeys(blocks))
    requires MembersHold(blocks, parts, |parts|, pieces, lost, numberOf)
    requires XmpBlock(blocks[seedIndex], Jpeg, group, start, |Concat(pieces)|)
    ensures PS.Extraction(file, blocks, seedIndex, scratch, options).status != PS.Ok
  {
    PacketNotEmpty(pieces);
    MissingPieceIsGap(file, blocks, parts, pieces, lost, numberOf, options);
    hide PS.Members;
    hide SortByKey;
    hide PS.OffsetParts;
    hide OtherPiece;
  }

  /** The round trip of a packet, in the blocks of a scan. */
  ghost predicate PacketComesBack(file: seq<Byte>, blocks: seq<Block>, pieces: seq<seq<Byte>>, j: U32, scratch: nat,
                                  options: PS.PayloadOptions)
    requires |file| <= SPAN_MAX && |blocks| <= U32_MAX && |Concat(pieces)| <= U64_MAX
  {
    PS.Extraction(file, blocks, j, scratch, options) == PS.Stream(Concat(pieces))
  }

  /**
   * The round trip of a packet, with its exact condition: cut into nonempty parts, written in any order
   * among any other segments, scanned, and extracted from a part that was found, the packet comes back if
   * and only if no part shows the texts of an XMP packet in its first 512 bytes, as such a part is taken
   * for a packet of its own.
   */
  lemma PacketSurvives(frames: seq<Frame>, tail: seq<Byte>, capacity: U32, guid: seq<Byte>, pieces: seq<seq<Byte>>,
                       at: seq<nat>, numbers: seq<nat>, k: nat, scratch: nat, options: PS.PayloadOptions)
    returns (j: U32)
    requires WritesPacket(frames, guid, pieces, at, numbers) && ProperTail(tail)
    requires |WriteFile(frames, tail)| <= SPAN_MAX && Scan(WriteFile(frames, tail), capacity).needed <= capacity
    requires k < |at| && at[k] < |frames| && !LooksLikeXmp(frames[at[k]].payload)
    requires Admitted(|pieces|, |Concat(pieces)|, scratch, options)
    ensures var file := WriteFile(frames, tail);
            var blocks := Scan(file, capacity).blocks;
            && Scan(file, capacity).status == Ok && j < |blocks| <= U32_MAX && |Concat(pieces)| <= U64_MAX
            && XmpBlock(blocks[j], Jpeg, Fnv1a64(guid), StartOf(pieces, numbers[k]), |Concat(pieces)|)
            && Holds(file, blocks[j], pieces[numbers[k]])
            && (PacketComesBack(file, blocks, pieces, j, scratch, options) <==>
                forall i :: 0 <= i < |at| ==> !LooksLikeXmp(frames[at[i]].payload))
  {
    assert forall i :: 0 <= i < |frames| ==> ProperFrame(frames[i]);
    assert |at| == |numbers| && numbers[k] < |pieces| && |Concat(pieces)| <= U32_MAX;
    assert forall i :: 0 <= i < |at| ==> at[i] < |frames|;
    var file := WriteFile(frames, tail);
    var segments, found := ScanOfFrames(frames, tail, capacity);
    var blocks := Scan(file, capacity).blocks;
    assert |blocks| <= U32_MAX;
    PartsAreFound(frames, guid, pieces, at, numbers, file, segments, found, blocks);
    j := FoundPart(frames, guid, pieces, at, numbers, file, segments, found, blocks, k);
    hide *;
    SurvivesOrIsLost(frames, guid, pieces, at, numbers, file, segments, found, blocks, k, j, scratch, options);
  }

  lemma FoundPart(frames: seq<Frame>, guid: seq<Byte>, pieces: seq<seq<Byte>>, at: seq<nat>, numbers: seq<nat>,
                  file: seq<Byte>, segments: seq<Segment>, found: seq<Option<Block>>, blocks: seq<Block>, k: nat)
    returns (j: U32)
    requires WritesPacket(frames, guid, pieces, at, numbers)
    requires AreFrames(file, segments, frames) && FoundIn(file, segments, found, blocks)
    requires PartsFound(file, frames, guid, pieces, at, numbers, found)
    requires k < |at| && at[k] < |frames| && !LooksLikeXmp(frames[at[k]].payload)
    ensures numbers[k] < |pieces| && at[k] < |found| && j == Place(found, at[k]) < |blocks|
    ensures XmpBlock(blocks[j], Jpeg, Fnv1a64(guid), StartOf(pieces, numbers[k]), |Concat(pieces)|)
    ensures Holds(file, blocks[j], pieces[numbers[k]])
  {
    hide Place;
    hide Holds;
    hide LooksLikeXmp;
    hide StartOf;
    hide Fnv1a64;
    hide Classify;
    FrameInBlocks(file, segments, found, blocks, at[k]);
    j := Place(found, at[k]);
  }

  lemma SurvivesOrIsLost(frames: seq<Frame>, guid: seq<Byte>, pieces: seq<seq<Byte>>, at: seq<nat>,
                         numbers: seq<nat>, file: seq<Byte>, segments: seq<Segment>, found: seq<Option<Block>>,
                         blocks: seq<Block>, k: nat, j: U32, scratch: nat, options: PS.PayloadOptions)
    requires WritesPacket(frames, guid, pieces, at, numbers) && forall i :: 0 <= i < |at| ==> at[i] < |frames|
    requires AreFrames(file, segments, frames) && FoundIn(file, segments, found, blocks)
    requires |file| <= SPAN_MAX && PartsFound(file, frames, guid, pieces, at, numbers, found)
    requires k < |at| == |numbers| && numbers[k] < |pieces| && |Concat(pieces)| <= U32_MAX
    requires at[k] < |found| && j == Place(found, at[k]) < |blocks| <= U32_MAX
    requires XmpBlock(blocks[j], Jpeg, Fnv1a64(guid), StartOf(pieces, numbers[k]), |Concat(pieces)|)
    requires Admitted(|pieces|, |Concat(pieces)|, scratch, options)
    ensures PacketComesBack(file, blocks, pieces, j, scratch, options) <==>
            forall i :: 0 <= i < |at| ==> !LooksLikeXmp(frames[at[i]].payload)
  {
    if forall i :: 0 <= i < |at| ==> !LooksLikeXmp(frames[at[i]].payload) {
      assert NoneHinted(frames, at);
      var order := PacketIsFound(frames, guid, pieces, at, numbers, file, segments, found, blocks);
      assert order[k] == j && k < |order|;
      hide *;
      PacketExtracts(file, blocks, Jpeg, Fnv1a64(guid), pieces, |Concat(pieces)|, order, numbers, k, scratch, options);
      ComesBack(file, blocks, pieces, j, scratch, options);
    } else {
      var lost :| 0 <= lost < |at| && LooksLikeXmp(frames[at[lost]].payload);
      hide *;
      LostPacket(frames, guid, pieces, at, numbers, file, segments, found, blocks, j, lost, scratch, options);
      StaysAway(file, blocks, pieces, j, scratch, options);
    }
  }

  lemma ComesBack(file: seq<Byte>, blocks: seq<Block>, pieces: seq<seq<Byte>>, j: U32, scratch: nat,
                  options: PS.PayloadOptions)
    requires |file| <= SPAN_MAX && |blocks| <= U32_MAX && |Concat(pieces)| <= U64_MAX
    requires PS.Extraction(file, blocks, j, scratch, options) == PS.Stream(Concat(pieces))
    ensures PacketComesBack(file, blocks, pieces, j, scratch, options)
  {
  }

  lemma StaysAway(file: seq<Byte>, blocks: seq<Block>, pieces: seq<seq<Byte>>, j: U32, scratch: nat,
                  options: PS.PayloadOptions)
    requires |file| <= SPAN_MAX && |blocks| <= U32_MAX && |Concat(pieces)| <= U64_MAX
    requires PS.Extraction(file, blocks, j, scratch, options).status != PS.Ok
    ensures !PacketComesBack(file, blocks, pieces, j, scratch, options)
  {
    hide PS.Extraction;
  }
}
