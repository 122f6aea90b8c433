/**
 * Split ICC profiles and extended XMP packets: from any of their blocks, among whatever other blocks a
 * file has, extraction returns the profile or the packet, and blocks of other streams are not joined.
 */
module SplitStreams {
  import opened Bytes
  import opened Blocks
  import opened PartSort
  import opened PayloadSpec
  import opened PayloadTheorems
  import opened StreamMembers

  /** Block `b` holds the piece. */
  ghost predicate Holds(file: seq<Byte>, b: Block, piece: seq<Byte>) {
    b.dataOffset + b.dataSize <= |file| && file[b.dataOffset..b.dataOffset + b.dataSize] == piece
  }

  /** The blocks `order`, in the order of the list, carry the pieces `numbers`, each once. */
  ghost predicate EachOnce(blocks: seq<Block>, order: seq<U32>, numbers: seq<nat>, count: nat) {
    && |blocks| <= U32_MAX && |order| == |numbers| == count > 0 && Increasing(order)
    && (forall i :: 0 <= i < |order| ==> order[i] < |blocks| && numbers[i] < count)
    && (forall i, j :: 0 <= i < j < |numbers| ==> numbers[i] != numbers[j])
  }

  // ----- profiles ---------------------------------------------------------------------------------------

  /** A block of an ICC profile in `count` numbered pieces; a count of 0 stands for an unknown one. */
  ghost predicate IccBlock(b: Block, format: ContainerFormat, number: nat, count: nat) {
    && b.format == format && b.kind == BlockKind.Icc && b.chunking == JpegApp2SeqTotal
    && b.partIndex == number && b.partCount == count
  }

  /** A block that has nothing to do with a profile of `count` pieces. */
  ghost predicate NotIccBlock(b: Block, format: ContainerFormat, count: nat) {
    || b.format != format || b.kind != BlockKind.Icc || b.chunking != JpegApp2SeqTotal
    || (count != 0 && b.partCount != 0 && b.partCount != count)
  }

  /** The blocks hold the pieces of one profile, among any other blocks. */
  ghost predicate HoldsProfile(file: seq<Byte>, blocks: seq<Block>, format: ContainerFormat, pieces: seq<seq<Byte>>,
                               declared: nat, order: seq<U32>, numbers: seq<nat>) {
    && EachOnce(blocks, order, numbers, |pieces|) && (declared == 0 || declared == |pieces|)
    && (forall i :: 0 <= i < |order| ==>
          && IccBlock(blocks[order[i]], format, numbers[i], declared)
          && Holds(file, blocks[order[i]], pieces[numbers[i]]))
    && (forall j: U32 :: j < |blocks| && j !in order ==> NotIccBlock(blocks[j], format, declared))
  }

  lemma ProfileMembers(file: seq<Byte>, blocks: seq<Block>, format: ContainerFormat, pieces: seq<seq<Byte>>,
                       declared: nat, order: seq<U32>, numbers: seq<nat>, k: nat)
    requires HoldsProfile(file, blocks, format, pieces, declared, order, numbers) && k < |order|
    ensures Members(blocks[order[k]], blocks, |blocks|) == order
  {
    var seed := blocks[order[k]];
    assert IccBlock(seed, format, numbers[k], declared);
    forall j: U32 | j < |blocks| ensures SameStream(seed, blocks[j]) <==> j in order {
      if j in order {
        var i :| 0 <= i < |order| && order[i] == j;
        assert IccBlock(blocks[order[i]], format, numbers[i], declared);
      } else {
        assert NotIccBlock(blocks[j], format, declared);
      }
    }
    hide SameStream;
    MembersAreOrder(seed, blocks, order);
  }

  lemma ProfileCarries(file: seq<Byte>, blocks: seq<Block>, format: ContainerFormat, pieces: seq<seq<Byte>>,
                       declared: nat, order: seq<U32>, numbers: seq<nat>)
    requires HoldsProfile(file, blocks, format, pieces, declared, order, numbers)
    ensures CarryPieces(file, blocks, order, pieces)
  {
    forall i | 0 <= i < |order|
      ensures blocks[order[i]].partIndex == numbers[i] && CarriesPiece(file, blocks[order[i]], pieces)
    {
      assert IccBlock(blocks[order[i]], format, numbers[i], declared);
      assert Holds(file, blocks[order[i]], pieces[numbers[i]]);
    }
  }

  /** The limits of the caller admit a payload of `count` pieces and `size` bytes. */
  ghost predicate Admitted(count: nat, size: nat, scratch: nat, options: PayloadOptions) {
    && count <= options.maxParts && count <= scratch && size <= U64_MAX
    && (options.maxOutputBytes == 0 || size <= options.maxOutputBytes)
  }

  /** A profile in pieces is extracted whole, from any of its blocks. */
  lemma ProfileExtracts(file: seq<Byte>, blocks: seq<Block>, format: ContainerFormat, pieces: seq<seq<Byte>>,
                        declared: nat, order: seq<U32>, numbers: seq<nat>, k: nat, scratch: nat,
                        options: PayloadOptions)
    requires HoldsProfile(file, blocks, format, pieces, declared, order, numbers) && k < |order|
    requires |file| <= SPAN_MAX && Admitted(|pieces|, |Concat(pieces)|, scratch, options)
    ensures Extraction(file, blocks, order[k], scratch, options) == Stream(Concat(pieces))
  {
    ProfileMembers(file, blocks, format, pieces, declared, order, numbers, k);
    ProfileCarries(file, blocks, format, pieces, declared, order, numbers);
    var seed := blocks[order[k]];
    assert IccBlock(seed, format, numbers[k], declared);
    IndexStreamJoins(file, blocks, seed, order, pieces, options);
    hide CarryPieces;
    hide Members;
    hide IndexStream;
    hide SortByKey;
  }

  // ----- packets ------------------------------------------------------------------------------------------

  /** Where piece `n` starts. */
  function StartOf(pieces: seq<seq<Byte>>, n: nat): nat
    requires n <= |pieces|
  {
    |Concat(pieces[..n])|
  }

  /** A block of an extended XMP packet: it starts at `start`, and declares the size of the packet, or 0. */
  ghost predicate XmpBlock(b: Block, format: ContainerFormat, group: U64, start: nat, declared: nat) {
    && b.format == format && b.kind == BlockKind.XmpExtended && b.chunking == JpegXmpExtendedGuidOffset
    && b.group == group && b.logicalOffset == start && b.logicalSize == declared
  }

  ghost predicate NotXmpBlock(b: Block, format: ContainerFormat, group: U64, declared: nat) {
    || b.format != format || b.kind != BlockKind.XmpExtended || b.chunking != JpegXmpExtendedGuidOffset
    || b.group != group || (declared != 0 && b.logicalSize != 0 && b.logicalSize != declared)
  }

  /** The blocks hold the pieces of one packet, none of them empty, among any other blocks. */
  ghost predicate HoldsPacket(file: seq<Byte>, blocks: seq<Block>, format: ContainerFormat, group: U64,
                              pieces: seq<seq<Byte>>, declared: nat, order: seq<U32>, numbers: seq<nat>) {
    && EachOnce(blocks, order, numbers, |pieces|) && (declared == 0 || declared == |Concat(pieces)|)
    && (forall n :: 0 <= n < |pieces| ==> pieces[n] != [])
    && (forall i :: 0 <= i < |order| ==>
          && XmpBlock(blocks[order[i]], format, group, StartOf(pieces, numbers[i]), declared)
          && Holds(file, blocks[order[i]], pieces[numbers[i]]))
    && (forall j: U32 :: j < |blocks| && j !in order ==> NotXmpBlock(blocks[j], format, group, declared))
  }

  lemma PacketMembers(file: seq<Byte>, blocks: seq<Block>, format: ContainerFormat, group: U64,
                      pieces: seq<seq<Byte>>, declared: nat, order: seq<U32>, numbers: seq<nat>, k: nat)
    requires HoldsPacket(file, blocks, format, group, pieces, declared, order, numbers) && k < |order|
    ensures Members(blocks[order[k]], blocks, |blocks|) == order
  {
    var seed := blocks[order[k]];
    hide StartOf;
    assert XmpBlock(seed, format, group, StartOf(pieces, numbers[k]), declared);
    forall j: U32 | j < |blocks| ensures SameStream(seed, blocks[j]) <==> j in order {
      if j in order {
        var i :| 0 <= i < |order| && order[i] == j;
        assert XmpBlock(blocks[order[i]], format, group, StartOf(pieces, numbers[i]), declared);
      } else {
        assert NotXmpBlock(blocks[j], format, group, declared);
      }
    }
    hide SameStream;
    MembersAreOrder(seed, blocks, order);
  }

  // ----- the order of the pieces --------------------------------------------------------------------------

  /** Starts ascend with the numbers of the pieces, as no piece is empty. */
  lemma {:induction false} StartsAscend(pieces: seq<seq<Byte>>, m: nat, n: nat)
    requires m <= n <= |pieces| && forall i :: 0 <= i < |pieces| ==> pieces[i] != []
    ensures StartOf(pieces, m) <= StartOf(pieces, n) && (m < n ==> StartOf(pieces, m) < StartOf(pieces, n))
  {
    if m < n {
      StartsAscend(pieces, m, n - 1);
      NextStart(pieces, n - 1);
    }
  }

  lemma NextStart(pieces: seq<seq<Byte>>, n: nat)
    requires n < |pieces|
    ensures StartOf(pieces, n + 1) == StartOf(pieces, n) + |pieces[n]|
  {
    assert pieces[..n + 1][..n] == pieces[..n];
  }

  /** The number of the piece that block `j` carries. */
  function NumberOf(order: seq<U32>, numbers: seq<nat>, j: nat): (n: nat)
    requires |order| == |numbers|
    ensures n in numbers || n == 0
  {
    if order == [] then 0 else if order[0] == j then numbers[0] else NumberOf(order[1..], numbers[1..], j)
  }

  lemma {:induction false} NumberOfEntry(order: seq<U32>, numbers: seq<nat>, i: nat)
    requires |order| == |numbers| && i < |order| && Increasing(order)
    ensures NumberOf(order, numbers, order[i]) == numbers[i]
  {
    if i > 0 {
      assert order[0] < order[i];
      assert Increasing(order[1..]);
      NumberOfEntry(order[1..], numbers[1..], i - 1);
    }
  }

  /** The same blocks, each with the number of its piece as its part number. */
  function WithNumbers(blocks: seq<Block>, order: seq<U32>, numbers: seq<nat>): (r: seq<Block>)
    requires |order| == |numbers| && forall i :: 0 <= i < |numbers| ==> numbers[i] <= U32_MAX
    ensures |r| == |blocks|
    ensures forall j :: 0 <= j < |r| ==> r[j] == blocks[j].(partIndex := NumberOf(order, numbers, j))
  {
    seq(|blocks|, j requires 0 <= j < |blocks| => blocks[j].(partIndex := NumberOf(order, numbers, j)))
  }

  lemma NumbersFit(blocks: seq<Block>, order: seq<U32>, numbers: seq<nat>, count: nat)
    requires EachOnce(blocks, order, numbers, count)
    ensures forall i :: 0 <= i < |numbers| ==> numbers[i] <= U32_MAX
  {
    CountFits(blocks, order, |order|);
  }

  lemma PieceOfBlock(file: seq<Byte>, blocks: seq<Block>, format: ContainerFormat, group: U64,
                     pieces: seq<seq<Byte>>, declared: nat, order: seq<U32>, numbers: seq<nat>, i: nat)
    requires HoldsPacket(file, blocks, format, group, pieces, declared, order, numbers) && i < |order|
    requires forall j :: 0 <= j < |numbers| ==> numbers[j] <= U32_MAX
    ensures var b := blocks[order[i]].(partIndex := NumberOf(order, numbers, order[i]));
            b.partIndex == numbers[i] && CarriesPiece(file, b, pieces)
  {
    hide NumberOf;
    hide XmpBlock;
    NumberOfEntry(order, numbers, i);
    assert Holds(file, blocks[order[i]], pieces[numbers[i]]);
  }

  lemma PacketCarries(file: seq<Byte>, blocks: seq<Block>, format: ContainerFormat, group: U64,
                      pieces: seq<seq<Byte>>, declared: nat, order: seq<U32>, numbers: seq<nat>)
    requires HoldsPacket(file, blocks, format, group, pieces, declared, order, numbers)
    ensures forall i :: 0 <= i < |numbers| ==> numbers[i] <= U32_MAX
    ensures CarryPieces(file, WithNumbers(blocks, order, numbers), order, pieces)
  {
    NumbersFit(blocks, order, numbers, |pieces|);
    var ns := WithNumbers(blocks, order, numbers);
    assert EachOnce(blocks, order, numbers, |pieces|);
    hide HoldsPacket;
    hide NumberOf;
    hide CarriesPiece;
    forall i | 0 <= i < |order|
      ensures ns[order[i]].partIndex == numbers[i] && CarriesPiece(file, ns[order[i]], pieces)
    {
      PieceOfBlock(file, blocks, format, group, pieces, declared, order, numbers, i);
    }
  }

  lemma {:induction false} CountFits(blocks: seq<Block>, order: seq<U32>, n: nat)
    requires Increasing(order) && n <= |order| && forall i :: 0 <= i < |order| ==> order[i] < |blocks|
    ensures n <= |blocks| && (n > 0 ==> order[n - 1] >= n - 1)
  {
    if n > 0 {
      CountFits(blocks, order, n - 1);
      assert order[n - 1] < |blocks| && (n > 1 ==> order[n - 2] < order[n - 1]);
    }
  }

  /** Sorted by their offsets, the blocks are in the order of their pieces. */
  lemma PacketSorts(file: seq<Byte>, blocks: seq<Block>, format: ContainerFormat, group: U64,
                    pieces: seq<seq<Byte>>, declared: nat, order: seq<U32>, numbers: seq<nat>)
    requires HoldsPacket(file, blocks, format, group, pieces, declared, order, numbers)
    ensures var parts := SortByKey(order, OffsetKeys(blocks));
            && |parts| == |pieces|
            && forall i :: 0 <= i < |parts| ==> InPlace(file, blocks[parts[i]], pieces, declared, i)
  {
    var keys := OffsetKeys(blocks);
    var parts := SortByKey(order, keys);
    SortByKeyIsStableSort(order, keys);
    PacketCarries(file, blocks, format, group, pieces, declared, order, numbers);
    var ns := WithNumbers(blocks, order, numbers);
    CarryAnyOrder(file, ns, order, parts, pieces);
    forall i | 0 <= i < |parts|
      ensures ns[parts[i]].partIndex < |pieces| && blocks[parts[i]].logicalSize == declared
      ensures blocks[parts[i]].logicalOffset == StartOf(pieces, ns[parts[i]].partIndex)
    {
      PartIsPiece(file, blocks, format, group, pieces, declared, order, numbers, parts, i);
    }
    assert forall i :: 0 <= i < |pieces| ==> pieces[i] != [];
    hide *;
    SortedInPlace(file, blocks, ns, parts, pieces, declared);
  }

  lemma SortedInPlace(file: seq<Byte>, blocks: seq<Block>, ns: seq<Block>, parts: seq<U32>, pieces: seq<seq<Byte>>,
                      declared: nat)
    requires |ns| == |blocks| && ValidParts(parts, blocks) && SortedByKey(parts, OffsetKeys(blocks))
    requires forall i :: 0 <= i < |pieces| ==> pieces[i] != []
    requires forall j :: 0 <= j < |ns| ==> ns[j] == blocks[j].(partIndex := ns[j].partIndex)
    requires CarryPieces(file, ns, parts, pieces)
    requires forall i :: 0 <= i < |parts| ==>
               && ns[parts[i]].partIndex < |pieces| && blocks[parts[i]].logicalSize == declared
               && blocks[parts[i]].logicalOffset == StartOf(pieces, ns[parts[i]].partIndex)
    ensures |parts| == |pieces|
    ensures forall i :: 0 <= i < |parts| ==> InPlace(file, blocks[parts[i]], pieces, declared, i)
  {
    SortedByNumber(blocks, ns, parts, pieces);
    AscendingCarryNumbered(file, ns, parts, pieces);
    hide SortedByKey;
    hide StartOf;
    forall i | 0 <= i < |parts| ensures InPlace(file, blocks[parts[i]], pieces, declared, i) {
      assert CarriesPiece(file, ns[parts[i]], pieces) && ns[parts[i]].partIndex == i;
    }
  }

  /** The block holds piece `n` at its place. */
  ghost predicate InPlace(file: seq<Byte>, b: Block, pieces: seq<seq<Byte>>, declared: nat, n: nat) {
    n < |pieces| && InFile(file, b) && BlockBytes(file, b) == pieces[n] && b.logicalOffset == StartOf(pieces, n)
    && b.logicalSize == declared
  }

  lemma PartIsPiece(file: seq<Byte>, blocks: seq<Block>, format: ContainerFormat, group: U64,
                    pieces: seq<seq<Byte>>, declared: nat, order: seq<U32>, numbers: seq<nat>, parts: seq<U32>, i: nat)
    requires HoldsPacket(file, blocks, format, group, pieces, declared, order, numbers)
    requires forall j :: 0 <= j < |numbers| ==> numbers[j] <= U32_MAX
    requires multiset(parts) == multiset(order) && i < |parts| && forall j :: 0 <= j < |parts| ==> parts[j] < |blocks|
    ensures var n := NumberOf(order, numbers, parts[i]);
            && n < |pieces| && blocks[parts[i]].logicalOffset == StartOf(pieces, n)
            && blocks[parts[i]].logicalSize == declared
  {
    assert parts[i] in multiset(order);
    var k :| 0 <= k < |order| && order[k] == parts[i];
    NumberOfEntry(order, numbers, k);
    assert XmpBlock(blocks[order[k]], format, group, StartOf(pieces, numbers[k]), declared);
  }

  lemma SortedByNumber(blocks: seq<Block>, ns: seq<Block>, parts: seq<U32>, pieces: seq<seq<Byte>>)
    requires |ns| == |blocks| && ValidParts(parts, blocks) && SortedByKey(parts, OffsetKeys(blocks))
    requires forall i :: 0 <= i < |pieces| ==> pieces[i] != []
    requires forall i :: 0 <= i < |parts| ==>
               && ns[parts[i]].partIndex < |pieces|
               && blocks[parts[i]].logicalOffset == StartOf(pieces, ns[parts[i]].partIndex)
    ensures SortedByKey(parts, PartKeys(ns))
  {
    var keys := OffsetKeys(blocks);
    forall i, j | 0 <= i < j < |parts| ensures ns[parts[i]].partIndex <= ns[parts[j]].partIndex {
      assert keys[parts[i]] <= keys[parts[j]];
      var a, b := ns[parts[i]].partIndex, ns[parts[j]].partIndex;
      if b < a {
        StartsAscend(pieces, b, a);
      }
    }
  }

  // ----- joining the packet -----------------------------------------------------------------------------------

  lemma {:induction false} SizesAreStarts(file: seq<Byte>, blocks: seq<Block>, parts: seq<U32>,
                                          pieces: seq<seq<Byte>>, declared: nat, n: nat)
    requires n <= |parts| == |pieces| && ValidParts(parts, blocks)
    requires forall i :: 0 <= i < |parts| ==> InPlace(file, blocks[parts[i]], pieces, declared, i)
    ensures TotalSize(blocks, parts, n) == StartOf(pieces, n)
  {
    if n > 0 {
      SizesAreStarts(file, blocks, parts, pieces, declared, n - 1);
      NextStart(pieces, n - 1);
      assert InPlace(file, blocks[parts[n - 1]], pieces, declared, n - 1);
      hide StartOf;
    }
  }

  /** Each piece continues the packet, and the last one ends it. */
  lemma PiecesTile(file: seq<Byte>, blocks: seq<Block>, parts: seq<U32>, pieces: seq<seq<Byte>>, declared: nat,
                   i: nat)
    requires i < |parts| == |pieces| && ValidParts(parts, blocks)
    requires forall n :: 0 <= n < |pieces| ==> pieces[n] != []
    requires forall n :: 0 <= n < |parts| ==> InPlace(file, blocks[parts[n]], pieces, declared, n)
    ensures Continues(file, blocks, parts, i, |Concat(pieces)|)
  {
    SizesAreStarts(file, blocks, parts, pieces, declared, i);
    assert InPlace(file, blocks[parts[i]], pieces, declared, i);
    NextStart(pieces, i);
    StartsAscend(pieces, i + 1, |pieces|);
    assert pieces[..|pieces|] == pieces;
  }

  lemma {:induction false} EndOfPieces(file: seq<Byte>, blocks: seq<Block>, parts: seq<U32>, pieces: seq<seq<Byte>>,
                                       declared: nat, n: nat)
    requires n <= |parts| == |pieces| && ValidParts(parts, blocks) && StartOf(pieces, n) <= U64_MAX
    requires forall i :: 0 <= i < |pieces| ==> pieces[i] != []
    requires forall i :: 0 <= i < |parts| ==> InPlace(file, blocks[parts[i]], pieces, declared, i)
    ensures FurthestEnd(blocks, parts, n) == Some(StartOf(pieces, n))
  {
    if n > 0 {
      StartsAscend(pieces, n - 1, n);
      EndOfPieces(file, blocks, parts, pieces, declared, n - 1);
      assert InPlace(file, blocks[parts[n - 1]], pieces, declared, n - 1);
      NextStart(pieces, n - 1);
    }
  }

  lemma PacketJoins(file: seq<Byte>, blocks: seq<Block>, parts: seq<U32>, pieces: seq<seq<Byte>>, declared: nat,
                    options: PayloadOptions)
    requires |parts| == |pieces| > 0 && ValidParts(parts, blocks) && |Concat(pieces)| <= U64_MAX
    requires forall i :: 0 <= i < |pieces| ==> pieces[i] != []
    requires forall i :: 0 <= i < |parts| ==> InPlace(file, blocks[parts[i]], pieces, declared, i)
    requires !OverLimit(|Concat(pieces)|, options)
    ensures OffsetParts(file, blocks, parts, |Concat(pieces)|, options) == Stream(Concat(pieces))
  {
    var n, size := |parts|, |Concat(pieces)|;
    forall i | 0 <= i < n ensures Continues(file, blocks, parts, i, size) {
      PiecesTile(file, blocks, parts, pieces, declared, i);
    }
    assert Contiguous(file, blocks, parts, n, size) == n;
    StartsAscend(pieces, 0, n);
    assert pieces[..n] == pieces && parts[..n] == parts && pieces[..0] == [];
    forall i | 0 <= i < n ensures InFile(file, blocks[parts[i]]) && BlockBytes(file, blocks[parts[i]]) == pieces[i] {
      assert InPlace(file, blocks[parts[i]], pieces, declared, i);
    }
    JoinedIsConcat(file, blocks, parts, pieces, n);
    hide Continues;
    hide Contiguous;
    hide InPlace;
    hide Joined;
  }

  /** A packet in pieces is extracted whole, from any of its blocks. */
  lemma PacketExtracts(file: seq<Byte>, blocks: seq<Block>, format: ContainerFormat, group: U64,
                       pieces: seq<seq<Byte>>, declared: nat, order: seq<U32>, numbers: seq<nat>, k: nat,
                       scratch: nat, options: PayloadOptions)
    requires HoldsPacket(file, blocks, format, group, pieces, declared, order, numbers) && k < |order|
    requires |file| <= SPAN_MAX && Admitted(|pieces|, |Concat(pieces)|, scratch, options)
    ensures Extraction(file, blocks, order[k], scratch, options) == Stream(Concat(pieces))
  {
    PacketMembers(file, blocks, format, group, pieces, declared, order, numbers, k);
    PacketSorts(file, blocks, format, group, pieces, declared, order, numbers);
    SortByKeyIsStableSort(order, OffsetKeys(blocks));
    var parts := SortByKey(order, OffsetKeys(blocks));
    PacketSeed(file, blocks, format, group, pieces, declared, order, numbers, k);
    hide *;
    SortedPacket(file, blocks, pieces, declared, order, parts, order[k], scratch, options);
  }

  lemma PacketSeed(file: seq<Byte>, blocks: seq<Block>, format: ContainerFormat, group: U64,
                   pieces: seq<seq<Byte>>, declared: nat, order: seq<U32>, numbers: seq<nat>, k: nat)
    requires HoldsPacket(file, blocks, format, group, pieces, declared, order, numbers) && k < |order|
    ensures order[k] < |blocks| <= U32_MAX && 0 < |order| == |pieces| && ValidParts(order, blocks)
    ensures blocks[order[k]].chunking == JpegXmpExtendedGuidOffset && blocks[order[k]].logicalSize == declared
    ensures (declared == 0 || declared == |Concat(pieces)|) && forall n :: 0 <= n < |pieces| ==> pieces[n] != []
  {
    hide StartOf;
    assert XmpBlock(blocks[order[k]], format, group, StartOf(pieces, numbers[k]), declared);
  }

  lemma SortedPacket(file: seq<Byte>, blocks: seq<Block>, pieces: seq<seq<Byte>>, declared: nat, order: seq<U32>,
                     parts: seq<U32>, seedIndex: U32, scratch: nat, options: PayloadOptions)
    requires |file| <= SPAN_MAX && seedIndex < |blocks| <= U32_MAX && 0 < |order| == |parts| == |pieces|
    requires Members(blocks[seedIndex], blocks, |blocks|) == order && ValidParts(order, blocks)
    requires parts == SortByKey(order, OffsetKeys(blocks))
    requires blocks[seedIndex].chunking == JpegXmpExtendedGuidOffset && blocks[seedIndex].logicalSize == declared
    requires (declared == 0 || declared == |Concat(pieces)|) && forall n :: 0 <= n < |pieces| ==> pieces[n] != []
    requires forall i :: 0 <= i < |parts| ==> InPlace(file, blocks[parts[i]], pieces, declared, i)
    requires Admitted(|pieces|, |Concat(pieces)|, scratch, options)
    ensures Extraction(file, blocks, seedIndex, scratch, options) == Stream(Concat(pieces))
  {
    PacketJoins(file, blocks, parts, pieces, declared, options);
    WholePacket(pieces);
    EndOfPieces(file, blocks, parts, pieces, declared, |pieces|);
    hide Members;
    hide OffsetParts;
    hide FurthestEnd;
    hide InPlace;
    hide SortByKey;
    hide StartOf;
  }

  lemma WholePacket(pieces: seq<seq<Byte>>)
    ensures StartOf(pieces, |pieces|) == |Concat(pieces)|
  {
    assert pieces[..|pieces|] == pieces;
  }
}
