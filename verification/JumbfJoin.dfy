/**
 * Normalised JUMBF segments are joined to the box they were cut from: from a list of found blocks,
 * through normalisation, to extraction with any part as seed.
 */
module JumbfJoin {
  import opened Bytes
  import opened Blocks
  import opened JumbfGroups
  import opened PartSort
  import opened PayloadSpec
  import opened PayloadTheorems
  import P = Payload

  /** A box cut into segments: every segment repeats `header`, and segment `k` goes on with `chunks[k]`. */
  datatype Cut = Cut(header: seq<Byte>, chunks: seq<seq<Byte>>, base: nat)

  ghost predicate ValidCut(cut: Cut) {
    (|cut.header| == 8 || |cut.header| == 16) && cut.base <= 1 && 0 < |cut.chunks| <= U32_MAX - 1
  }

  /** The box: its header once, then all chunks in order. */
  function BoxOf(cut: Cut): seq<Byte> { cut.header + Concat(cut.chunks) }

  /** Block `b` is segment `b.partIndex - base` of the cut, as the scanner finds it in `file`. */
  ghost predicate IsSegment(file: seq<Byte>, b: Block, cut: Cut) {
    && cut.base <= b.partIndex < cut.base + |cut.chunks|
    && b.dataSize == |cut.chunks[b.partIndex - cut.base]| <= SPAN_MAX
    && b.dataOffset == b.outerOffset + 12 + |cut.header|
    && b.dataOffset + b.dataSize <= |file|
    && file[b.dataOffset - |cut.header|..b.dataOffset] == cut.header
    && file[b.dataOffset..b.dataOffset + b.dataSize] == cut.chunks[b.partIndex - cut.base]
    && b.logicalOffset == 0 && b.chunking == Raw && b.compression == Uncompressed
  }

  /** The members of the group are exactly the segments of the cut, in any order. */
  ghost predicate HoldsCut(file: seq<Byte>, bs: seq<Block>, group: U64, cut: Cut) {
    && ValidCut(cut)
    && (forall j :: 0 <= j < |bs| && InGroup(bs[j], group) ==> IsSegment(file, bs[j], cut))
    && (forall a, b :: 0 <= a < b < |bs| && InGroup(bs[a], group) && InGroup(bs[b], group) ==>
        bs[a].partIndex != bs[b].partIndex)
    && GroupCount(bs, group, |bs|) == |cut.chunks|
    && HasNumber(bs, group, cut.base) && HasNumber(bs, group, cut.base + |cut.chunks| - 1)
  }

  /** The segments are recognised: the group starts at the base they were numbered from. */
  lemma BaseFound(file: seq<Byte>, bs: seq<Block>, group: U64, cut: Cut)
    requires HoldsCut(file, bs, group, cut)
    ensures BaseOf(bs, group) == Some(cut.base)
  {
    assert ValidBase(bs, group, cut.base);
    assert forall j :: 0 <= j < |bs| && InGroup(bs[j], group) ==> IsSegment(file, bs[j], cut);
  }

  /** The pieces that normalised segments carry: the first one with the header. */
  function NormalPieces(cut: Cut): (r: seq<seq<Byte>>)
    requires |cut.chunks| > 0
    ensures |r| == |cut.chunks|
  {
    [cut.header + cut.chunks[0]] + cut.chunks[1..]
  }

  lemma PiecesAreBox(cut: Cut)
    requires |cut.chunks| > 0
    ensures Concat(NormalPieces(cut)) == BoxOf(cut)
  {
    ConcatJoin([cut.header + cut.chunks[0]], cut.chunks[1..]);
    ConcatJoin([cut.chunks[0]], cut.chunks[1..]);
    assert cut.chunks == [cut.chunks[0]] + cut.chunks[1..];
    assert [cut.header + cut.chunks[0]][..0] == [] && [cut.chunks[0]][..0] == [];
    assert Concat([cut.header + cut.chunks[0]]) == cut.header + cut.chunks[0];
    assert Concat([cut.chunks[0]]) == cut.chunks[0];
  }

  lemma RenumberedCarries(file: seq<Byte>, b: Block, cut: Cut, count: U32)
    requires ValidCut(cut) && IsSegment(file, b, cut)
    ensures CarriesPiece(file, Renumbered(b, Some(cut.base), count), NormalPieces(cut))
  {
    var k := b.partIndex - cut.base;
    var piece := NormalPieces(cut)[k];
    if k == 0 {
      var start, length := b.dataOffset - |cut.header|, |cut.header| + b.dataSize;
      assert file[start..start + length] == file[start..b.dataOffset] + file[b.dataOffset..b.dataOffset + b.dataSize];
    } else {
      assert piece == cut.chunks[k];
    }
  }

  /** A normalised segment carries its piece, and is numbered from 0. */
  lemma SegmentCarries(file: seq<Byte>, bs: seq<Block>, group: U64, cut: Cut, j: nat)
    requires HoldsCut(file, bs, group, cut) && |bs| <= U32_MAX && Sized(bs) && j < |bs| && InGroup(bs[j], group)
    ensures var b := NormalBlock(bs, j);
            && CarriesPiece(file, b, NormalPieces(cut))
            && b.partIndex == bs[j].partIndex - cut.base && b.partCount == |cut.chunks|
            && b.logicalOffset == 0 && b.chunking == Raw && b.compression == Uncompressed && InGroup(b, group)
  {
    BaseFound(file, bs, group, cut);
    assert IsSegment(file, bs[j], cut);
    RenumberedCarries(file, bs[j], cut, |cut.chunks|);
    hide BaseOf;
    hide HasNumber;
    hide GroupCount;
    hide CarriesPiece;
    hide NormalPieces;
  }

  /** The blocks of the seed's stream are the members of its group. */
  lemma MembersAreGroup(file: seq<Byte>, bs: seq<Block>, group: U64, cut: Cut, seedIndex: nat, i: nat)
    requires HoldsCut(file, bs, group, cut) && |bs| <= U32_MAX && Sized(bs)
    requires seedIndex < |bs| && InGroup(bs[seedIndex], group) && i < |bs| && |cut.chunks| > 1
    ensures SameStream(Normalized(bs)[seedIndex], Normalized(bs)[i]) <==> InGroup(bs[i], group)
  {
    SegmentCarries(file, bs, group, cut, seedIndex);
    if InGroup(bs[i], group) {
      SegmentCarries(file, bs, group, cut, i);
    } else if IsApp11(bs[i]) {
      NormalBlockMarks(bs, i);
    }
  }

  lemma {:induction false} MembersCount(seed: Block, ns: seq<Block>, bs: seq<Block>, group: U64, n: nat)
    requires n <= |bs| == |ns| <= U32_MAX
    requires forall i :: 0 <= i < |bs| ==> (SameStream(seed, ns[i]) <==> InGroup(bs[i], group))
    ensures var members := Members(seed, ns, n);
            && |members| == GroupCount(bs, group, n)
            && (forall i, j :: 0 <= i < j < |members| ==> members[i] < members[j])
            && (forall i :: 0 <= i < |members| ==> InGroup(bs[members[i]], group))
  {
    hide SameStream;
    if n > 0 {
      MembersCount(seed, ns, bs, group, n - 1);
    }
  }

  /** The members of a group that holds a cut carry its pieces. */
  lemma MembersCarry(file: seq<Byte>, bs: seq<Block>, group: U64, cut: Cut, members: seq<U32>)
    requires HoldsCut(file, bs, group, cut) && |bs| <= U32_MAX && Sized(bs) && |members| == |cut.chunks|
    requires forall i, j :: 0 <= i < j < |members| ==> members[i] < members[j]
    requires forall i :: 0 <= i < |members| ==> members[i] < |bs| && InGroup(bs[members[i]], group)
    ensures CarryPieces(file, Normalized(bs), members, NormalPieces(cut))
    ensures forall i :: 0 <= i < |members| ==> Normalized(bs)[members[i]].logicalOffset == 0
  {
    var ns := Normalized(bs);
    forall i | 0 <= i < |members|
      ensures CarriesPiece(file, ns[members[i]], NormalPieces(cut)) && ns[members[i]].logicalOffset == 0
      ensures ns[members[i]].partIndex == bs[members[i]].partIndex - cut.base
    {
      SegmentCarries(file, bs, group, cut, members[i]);
    }
    hide HasNumber;
    hide GroupCount;
    hide IsSegment;
    forall i, j | 0 <= i < j < |members|
      ensures ns[members[i]].partIndex != ns[members[j]].partIndex
    {
      assert bs[members[i]].partIndex != bs[members[j]].partIndex;
    }
  }

  lemma NoOffsets(blocks: seq<Block>, members: seq<U32>, keys: seq<nat>)
    requires ValidParts(members, blocks) && |keys| == |blocks|
    requires forall i :: 0 <= i < |members| ==> blocks[members[i]].logicalOffset == 0
    ensures !AnyOffsets(blocks, SortByKey(members, keys))
  {
    SortByKeyIsStableSort(members, keys);
    var parts := SortByKey(members, keys);
    forall i | 0 <= i < |parts| ensures blocks[parts[i]].logicalOffset == 0 {
      assert parts[i] in multiset(parts);
      var k :| 0 <= k < |members| && members[k] == parts[i];
    }
  }

  /** A seed whose stream carries pieces 0 .. n-1, without offsets, extracts to these pieces. */
  lemma SeedExtractsPieces(file: seq<Byte>, ns: seq<Block>, seedIndex: nat, members: seq<U32>, pieces: seq<seq<Byte>>,
                           scratch: nat, options: PayloadOptions)
    requires |file| <= SPAN_MAX && seedIndex < |ns| <= U32_MAX && ns[seedIndex].chunking == Raw
    requires Members(ns[seedIndex], ns, |ns|) == members && ns[seedIndex].partCount == |pieces| > 1
    requires forall i :: 0 <= i < |members| ==> ns[members[i]].logicalOffset == 0
    requires CarryPieces(file, ns, members, pieces) && |pieces| <= options.maxParts && |pieces| <= scratch
    requires |Concat(pieces)| <= U64_MAX && !OverLimit(|Concat(pieces)|, options)
    ensures Extraction(file, ns, seedIndex, scratch, options) == Stream(Concat(pieces))
  {
    NoOffsets(ns, members, PartKeys(ns));
    IndexStreamJoins(file, ns, ns[seedIndex], members, pieces, options);
    hide CarriesPiece;
    hide AnyOffsets;
    hide SortByKey;
    hide Members;
    hide IndexStream;
  }

  /** The caller's limits admit the box. */
  ghost predicate Admits(options: PayloadOptions, scratch: nat, cut: Cut) {
    && |cut.chunks| <= options.maxParts && |cut.chunks| <= scratch
    && |BoxOf(cut)| <= U64_MAX && (options.maxOutputBytes == 0 || |BoxOf(cut)| <= options.maxOutputBytes)
  }

  lemma SingleSegmentJoins(file: seq<Byte>, bs: seq<Block>, group: U64, cut: Cut, seedIndex: nat, scratch: nat,
                           options: PayloadOptions)
    requires HoldsCut(file, bs, group, cut) && |bs| <= U32_MAX && Sized(bs) && |file| <= SPAN_MAX
    requires seedIndex < |bs| && InGroup(bs[seedIndex], group) && Admits(options, scratch, cut) && |cut.chunks| == 1
    ensures Extraction(file, Normalized(bs), seedIndex, scratch, options) == Stream(BoxOf(cut))
  {
    SegmentCarries(file, bs, group, cut, seedIndex);
    PiecesAreBox(cut);
    var pieces := NormalPieces(cut);
    assert pieces == [pieces[0]] && pieces[..0] == [];
    assert Concat(pieces) == pieces[0];
  }

  /**
   * With any segment as the seed, and whatever other blocks lie between them, the extraction after
   * normalisation returns exactly the box that was cut.
   */
  lemma JoinReturnsBox(file: seq<Byte>, bs: seq<Block>, group: U64, cut: Cut, seedIndex: nat, scratch: nat,
                       options: PayloadOptions)
    requires HoldsCut(file, bs, group, cut) && |bs| <= U32_MAX && Sized(bs) && |file| <= SPAN_MAX
    requires seedIndex < |bs| && InGroup(bs[seedIndex], group) && Admits(options, scratch, cut)
    ensures Extraction(file, Normalized(bs), seedIndex, scratch, options) == Stream(BoxOf(cut))
  {
    if |cut.chunks| == 1 {
      SingleSegmentJoins(file, bs, group, cut, seedIndex, scratch, options);
    } else {
      ManySegmentsJoin(file, bs, group, cut, seedIndex, scratch, options);
    }
  }

  lemma ManySegmentsJoin(file: seq<Byte>, bs: seq<Block>, group: U64, cut: Cut, seedIndex: nat, scratch: nat,
                         options: PayloadOptions)
    requires HoldsCut(file, bs, group, cut) && |bs| <= U32_MAX && Sized(bs) && |file| <= SPAN_MAX
    requires seedIndex < |bs| && InGroup(bs[seedIndex], group) && Admits(options, scratch, cut) && |cut.chunks| > 1
    ensures Extraction(file, Normalized(bs), seedIndex, scratch, options) == Stream(BoxOf(cut))
  {
    var ns := Normalized(bs);
    var seed := ns[seedIndex];
    var members := Members(seed, ns, |ns|);
    forall i | 0 <= i < |bs| ensures SameStream(seed, ns[i]) <==> InGroup(bs[i], group) {
      MembersAreGroup(file, bs, group, cut, seedIndex, i);
    }
    MembersCount(seed, ns, bs, group, |bs|);
    MembersCarry(file, bs, group, cut, members);
    SegmentCarries(file, bs, group, cut, seedIndex);
    PiecesAreBox(cut);
    hide HoldsCut;
    hide CarryPieces;
    hide NormalBlock;
    hide Members;
    hide Extraction;
    SeedExtractsPieces(file, ns, seedIndex, members, NormalPieces(cut), scratch, options);
  }
}
