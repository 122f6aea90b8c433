/** Random-access extraction refines the extraction from memory. */
module RandomRefinement {
  import opened Bytes
  import opened Blocks
  import opened PartSort
  import opened PayloadSpec
  import P = Payload
  import R = RandomPayload

  /** The walk over the GIF sub-blocks from position `p` meets the terminator. */
  predicate Terminated(src: seq<Byte>, p: nat)
    requires p <= |src|
    decreases |src| - p
  {
    p < |src| && (src[p] == 0 || (src[p] as nat <= |src| - (p + 1) && Terminated(src, p + 1 + src[p] as nat)))
  }

  /** With the terminator the two GIF readers agree; without it only the one in memory may succeed. */
  lemma {:induction false} GifAgrees(src: seq<Byte>, p: nat, done: seq<Byte>, options: PayloadOptions)
    requires p <= |src| <= SPAN_MAX && |done| <= p
    ensures Terminated(src, p) ==> R.GifFrom(src, p, done, options) == GifFrom(src, p, done, options)
    ensures GifFrom(src, p, done, options).status == Ok ==>
              (R.GifFrom(src, p, done, options).status == Ok <==> Terminated(src, p))
    decreases |src| - p
  {
    if p < |src| && src[p] != 0 {
      var size := src[p] as nat;
      if size <= |src| - (p + 1) && !OverLimit(|done| + size, options) {
        GifAgrees(src, p + 1 + size, done + src[p + 1..p + 1 + size], options);
      }
    }
  }

  /** One sub-block without a terminator: the reader in memory is content with it, the other one is not. */
  lemma UnterminatedGif(options: PayloadOptions)
    requires options.maxOutputBytes == 0
    ensures GifFrom([1, 7], 0, [], options) == Stream([7])
    ensures R.GifFrom([1, 7], 0, [], options).status == Malformed
  {
    var src: seq<Byte> := [1, 7];
    assert src[1..2] == [7] && [] + src[1..2] == [7];
  }

  lemma ConcatAgrees(file: seq<Byte>, blocks: seq<Block>, parts: seq<U32>, options: PayloadOptions)
    requires ValidParts(parts, blocks) && parts != []
    requires ConcatParts(file, blocks, parts, options).status == Ok
    ensures R.ConcatParts(file, blocks, parts, options) == ConcatParts(file, blocks, parts, options)
  {
    NoObjection(file, blocks, parts, |parts|, options);
    assert parts[..|parts|] == parts;
  }

  /** What the random-access form measures: at least every end, and a declared size unless an end exceeds it. */
  lemma {:induction false} MeasuredSizeIs(blocks: seq<Block>, parts: seq<U32>, n: nat, size: U64)
    requires n <= |parts| && ValidParts(parts, blocks) && FurthestEnd(blocks, parts, n).Some?
    requires FurthestEnd(blocks, parts, n).value <= size
    ensures DeclaredSize(blocks, parts, n) == size && size != 0 ==> R.MeasuredSize(blocks, parts, n) == Some(size)
    ensures DeclaredSize(blocks, parts, n) == 0 ==> R.MeasuredSize(blocks, parts, n) == FurthestEnd(blocks, parts, n)
    ensures R.MeasuredSize(blocks, parts, n).Some?
  {
    if n > 0 {
      MeasuredSizeIs(blocks, parts, n - 1, size);
    }
  }

  /** No part of a stream that tiles [0, size) reaches beyond it. */
  lemma {:induction false} EndsWithin(file: seq<Byte>, blocks: seq<Block>, parts: seq<U32>, n: nat, size: U64)
    requires n <= |parts| && ValidParts(parts, blocks)
    requires forall i :: 0 <= i < n ==> Continues(file, blocks, parts, i, size)
    ensures FurthestEnd(blocks, parts, n).Some? && FurthestEnd(blocks, parts, n).value <= size
  {
    if n > 0 {
      EndsWithin(file, blocks, parts, n - 1, size);
      assert Continues(file, blocks, parts, n - 1, size);
    }
  }

  lemma OffsetsAgree(file: seq<Byte>, blocks: seq<Block>, parts: seq<U32>, options: PayloadOptions)
    requires ValidParts(parts, blocks)
    requires OffsetStream(file, blocks, parts, options).status == Ok
    ensures R.OffsetStream(file, blocks, parts, options) == OffsetStream(file, blocks, parts, options)
  {
    var n := |parts|;
    var end, declared := FurthestEnd(blocks, parts, n).value, DeclaredSize(blocks, parts, n);
    var size: U64 := if declared != 0 then declared else end;
    EndsWithin(file, blocks, parts, n, size);
    MeasuredSizeIs(blocks, parts, n, size);
  }

  lemma StreamsAgree(file: seq<Byte>, blocks: seq<Block>, seed: Block, members: seq<U32>, options: PayloadOptions)
    requires ValidParts(members, blocks) && 0 < |members| <= U32_MAX
    requires StreamOf(file, blocks, seed, members, options).status == Ok
    ensures R.StreamOf(file, blocks, seed, members, options) == StreamOf(file, blocks, seed, members, options)
  {
    var byPart := SortByKey(members, PartKeys(blocks));
    if seed.chunking == JpegApp2SeqTotal
        || (seed.chunking != JpegXmpExtendedGuidOffset && !AnyOffsets(blocks, byPart)) {
      ConcatAgrees(file, blocks, byPart, options);
    } else if seed.chunking != JpegXmpExtendedGuidOffset {
      OffsetsAgree(file, blocks, SortByKey(byPart, OffsetKeys(blocks)), options);
    }
  }

  /** The data of the seed is read without decompression. */
  predicate ReadsUncompressed(seed: Block, options: PayloadOptions) {
    !options.decompress || seed.compression == Uncompressed
  }

  /**
   * Whenever the extraction from memory succeeds or truncates, the random-access one hands over the
   * same bytes and reports the same; for GIF sub-blocks this needs, and only needs, the terminator.
   */
  lemma RandomRefinesMemory(file: seq<Byte>, blocks: seq<Block>, seedIndex: U32, scratch: nat, options: PayloadOptions)
    requires |file| <= SPAN_MAX && |blocks| <= U32_MAX && seedIndex < |blocks|
    requires ReadsUncompressed(blocks[seedIndex], options)
    requires Extraction(file, blocks, seedIndex, scratch, options).status == Ok
    ensures blocks[seedIndex].chunking != GifSubBlocks ==>
              R.Extraction(file, blocks, seedIndex, scratch, options)
                  == Extraction(file, blocks, seedIndex, scratch, options)
    ensures blocks[seedIndex].chunking == GifSubBlocks ==>
              && InFile(file, blocks[seedIndex])
              && (R.Extraction(file, blocks, seedIndex, scratch, options)
                  == Extraction(file, blocks, seedIndex, scratch, options)
                  <==> Terminated(BlockBytes(file, blocks[seedIndex]), 0))
  {
    hide StreamOf;
    hide R.StreamOf;
    var seed := blocks[seedIndex];
    if IsSingle(seed) {
      if InFile(file, seed) {
        GifAgrees(BlockBytes(file, seed), 0, [], options);
      }
    } else {
      StreamsAgree(file, blocks, seed, Members(seed, blocks, |blocks|), options);
    }
  }
}
