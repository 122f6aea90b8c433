/** The limits that a caller sets are kept: on the bytes of a payload and on the number of its parts. */
module PayloadLimits {
  import opened Bytes
  import opened Blocks
  import opened PartSort
  import opened PayloadSpec

  /** No more bytes than the caller allows; 0 allows any number. */
  ghost predicate BytesAllowed(size: nat, options: PayloadOptions) {
    options.maxOutputBytes == 0 || size <= options.maxOutputBytes
  }

  lemma {:induction false} GifKeepsLimit(src: seq<Byte>, p: nat, done: seq<Byte>, options: PayloadOptions)
    requires p <= |src| <= SPAN_MAX && |done| <= p && BytesAllowed(|done|, options)
    ensures GifFrom(src, p, done, options).status == Ok ==>
              BytesAllowed(|GifFrom(src, p, done, options).copied|, options)
    decreases |src| - p
  {
    if p < |src| && src[p] != 0 {
      var size := src[p] as nat;
      if size <= |src| - (p + 1) && !OverLimit(|done| + size, options) {
        GifKeepsLimit(src, p + 1 + size, done + src[p + 1..p + 1 + size], options);
      }
    }
  }

  lemma SingleKeepsLimit(file: seq<Byte>, b: Block, options: PayloadOptions)
    requires |file| <= SPAN_MAX
    ensures SingleBlock(file, b, options).status == Ok ==> BytesAllowed(|SingleBlock(file, b, options).copied|, options)
  {
    if InFile(file, b) {
      GifKeepsLimit(BlockBytes(file, b), 0, [], options);
    }
    hide GifFrom;
  }

  lemma ConcatKeepsLimit(file: seq<Byte>, blocks: seq<Block>, parts: seq<U32>, options: PayloadOptions)
    requires ValidParts(parts, blocks) && parts != []
    ensures ConcatParts(file, blocks, parts, options).status == Ok ==>
              BytesAllowed(|ConcatParts(file, blocks, parts, options).copied|, options)
  {
    if ConcatObjection(file, blocks, parts, |parts|, options).None? {
      NoObjection(file, blocks, parts, |parts|, options);
      assert parts[..|parts|] == parts;
      hide TotalSize;
      hide ConcatObjection;
    }
  }

  lemma OffsetsKeepLimit(file: seq<Byte>, blocks: seq<Block>, parts: seq<U32>, size: U64, options: PayloadOptions)
    requires ValidParts(parts, blocks)
    ensures OffsetParts(file, blocks, parts, size, options).status == Ok ==>
              BytesAllowed(|OffsetParts(file, blocks, parts, size, options).copied|, options)
  {
    hide Contiguous;
    hide Joined;
  }

  lemma PartsKeepLimit(file: seq<Byte>, blocks: seq<Block>, seed: Block, parts: seq<U32>, options: PayloadOptions)
    requires ValidParts(parts, blocks) && 0 < |parts| <= U32_MAX
    ensures var o := IndexStream(file, blocks, seed, parts, options);
            o.status == Ok ==> BytesAllowed(|o.copied|, options)
    ensures var o := XmpStream(file, blocks, seed, parts, options); o.status == Ok ==> BytesAllowed(|o.copied|, options)
    ensures var o := OffsetStream(file, blocks, parts, options); o.status == Ok ==> BytesAllowed(|o.copied|, options)
  {
    ConcatKeepsLimit(file, blocks, parts, options);
    forall size: U64 ensures OffsetParts(file, blocks, parts, size, options).status == Ok ==>
        BytesAllowed(|OffsetParts(file, blocks, parts, size, options).copied|, options)
    {
      OffsetsKeepLimit(file, blocks, parts, size, options);
    }
    hide OffsetParts;
    hide ConcatParts;
    hide FurthestEnd;
    hide DeclaredSize;
    hide BytesAllowed;
  }

  /** A payload that is extracted has no more bytes and, if it is split, no more parts than allowed. */
  lemma ExtractionKeepsLimits(file: seq<Byte>, blocks: seq<Block>, seedIndex: U32, scratch: nat,
                              options: PayloadOptions)
    requires |file| <= SPAN_MAX && seedIndex < |blocks| <= U32_MAX
    requires Extraction(file, blocks, seedIndex, scratch, options).status == Ok
    ensures BytesAllowed(|Extraction(file, blocks, seedIndex, scratch, options).copied|, options)
    ensures !IsSingle(blocks[seedIndex]) ==>
              |Members(blocks[seedIndex], blocks, |blocks|)| <= options.maxParts
              && |Members(blocks[seedIndex], blocks, |blocks|)| <= scratch
  {
    var seed := blocks[seedIndex];
    if IsSingle(seed) {
      SingleKeepsLimit(file, seed, options);
      hide SingleBlock;
    } else {
      var members := Members(seed, blocks, |blocks|);
      hide Members;
      if members != [] {
        StreamKeepsLimit(file, blocks, seed, members, options);
        hide StreamOf;
      }
    }
    hide BytesAllowed;
  }

  lemma StreamKeepsLimit(file: seq<Byte>, blocks: seq<Block>, seed: Block, members: seq<U32>, options: PayloadOptions)
    requires ValidParts(members, blocks) && 0 < |members| <= U32_MAX
    ensures var o := StreamOf(file, blocks, seed, members, options);
            o.status == Ok ==> BytesAllowed(|o.copied|, options)
  {
    var parts := SortByKey(members, PartKeys(blocks));
    hide IndexStream;
    hide XmpStream;
    hide OffsetStream;
    hide SortByKey;
    hide BytesAllowed;
    if seed.chunking == JpegApp2SeqTotal {
      PartsKeepLimit(file, blocks, seed, parts, options);
    } else if seed.chunking == JpegXmpExtendedGuidOffset {
      PartsKeepLimit(file, blocks, seed, SortByKey(members, OffsetKeys(blocks)), options);
    } else if AnyOffsets(blocks, parts) {
      PartsKeepLimit(file, blocks, seed, SortByKey(parts, OffsetKeys(blocks)), options);
    } else {
      PartsKeepLimit(file, blocks, seed, parts, options);
    }
  }
}
