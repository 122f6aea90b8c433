/** Payload extraction from a file in memory, into a caller's buffer, with a caller's scratch array. */
module Payload {
  import opened Bytes
  import opened Blocks
  import opened PartSort
  import opened PayloadSpec

  /** Copies `src` to position `dstOffset`, as far as it fits; returns the new number of bytes written. */
  method CopyBytes(dst: array<Byte>, dstOffset: nat, src: seq<Byte>, written: nat) returns (newWritten: nat)
    modifies dst
    ensures dstOffset <= dst.Length ==>
              && newWritten == written + Min(|src|, dst.Length - dstOffset)
              && dst[..] == old(dst[..dstOffset]) + Overlay(old(dst[dstOffset..]), src)
    ensures dstOffset > dst.Length ==> newWritten == written && dst[..] == old(dst[..])
  {
    newWritten := written;
    if dstOffset >= dst.Length {
      return;
    }
    var room := dst.Length - dstOffset;
    var n := if |src| < room then |src| else room;
    if n == 0 {
      return;
    }
    forall i | 0 <= i < n {
      dst[dstOffset + i] := src[i];
    }
    newWritten := written + n;
  }

  /** Copying `more` behind `copied` leaves the buffer as if both had been copied at once. */
  lemma OverlayAppend(buffer: seq<Byte>, copied: seq<Byte>, more: seq<Byte>)
    requires |copied| <= |buffer|
    ensures Overlay(buffer, copied)[..|copied|] + Overlay(Overlay(buffer, copied)[|copied|..], more)
            == Overlay(buffer, copied + more)
  {
  }

  lemma OverlayFull(buffer: seq<Byte>, copied: seq<Byte>, more: seq<Byte>)
    requires |copied| >= |buffer|
    ensures Overlay(buffer, copied + more) == Overlay(buffer, copied)
  {
  }

  lemma OverlayNothing(buffer: seq<Byte>)
    ensures Overlay(buffer, []) == buffer
  {
  }

  /** Appends a piece to a stream of which `copied` is already in the buffer. */
  method CopyNext(out: array<Byte>, offset: nat, piece: seq<Byte>, written: nat, ghost buffer: seq<Byte>,
                  ghost copied: seq<Byte>)
    returns (newWritten: nat)
    requires |buffer| == out.Length && out[..] == Overlay(buffer, copied)
    requires written == Min(|copied|, out.Length)
    requires offset == |copied| || (offset == written == out.Length)
    modifies out
    ensures out[..] == Overlay(buffer, copied + piece)
    ensures newWritten == Min(|copied + piece|, out.Length)
  {
    ghost var before := out[..];
    newWritten := CopyBytes(out, offset, piece, written);
    if |copied| <= out.Length {
      OverlayAppend(buffer, copied, piece);
    } else {
      OverlayFull(buffer, copied, piece);
    }
    if |copied| >= out.Length {
      OverlayFull(buffer, copied, piece);
      assert before[out.Length..] == [];
    }
  }

  method ExtractGifSubblocks(src: seq<Byte>, out: array<Byte>, options: PayloadOptions) returns (res: PayloadResult)
    requires |src| <= SPAN_MAX && out.Length <= SPAN_MAX
    modifies out
    ensures res == ResultFor(GifFrom(src, 0, [], options), out.Length)
    ensures out[..] == Overlay(old(out[..]), GifFrom(src, 0, [], options).copied)
  {
    ghost var buffer, done: seq<Byte> := out[..], [];
    var needed, written, p := 0, 0, 0;
    while p < |src|
      invariant 0 <= p <= |src| && |done| == needed <= p
      invariant written == Min(needed, out.Length)
      invariant out[..] == Overlay(buffer, done)
      invariant GifFrom(src, 0, [], options) == GifFrom(src, p, done, options)
    {
      var sub := src[p] as nat;
      if sub == 0 {
        break;
      }
      p := p + 1;
      if sub > |src| - p {
        return PayloadResult(Malformed, 0, 0);
      }
      needed := needed + sub;
      if OverLimit(needed, options) {
        return PayloadResult(LimitExceeded, needed, written);
      }
      var part := src[p..p + sub];
      written := CopyNext(out, written, part, written, buffer, done);
      done := done + part;
      p := p + sub;
    }
    res := PayloadResult(if written < needed then OutputTruncated else Ok, needed, written);
  }

  method ExtractSingleBlock(file: seq<Byte>, b: Block, out: array<Byte>, options: PayloadOptions)
    returns (res: PayloadResult)
    requires |file| <= SPAN_MAX && out.Length <= SPAN_MAX
    modifies out
    ensures res == ResultFor(SingleBlock(file, b, options), out.Length)
    ensures out[..] == Overlay(old(out[..]), SingleBlock(file, b, options).copied)
  {
    if !InFile(file, b) {
      return PayloadResult(Malformed, 0, 0);
    }
    var src := BlockBytes(file, b);
    if b.chunking == GifSubBlocks {
      res := ExtractGifSubblocks(src, out, options);
      return;
    }
    if !options.decompress || b.compression == Uncompressed {
      if OverLimit(b.dataSize, options) {
        return PayloadResult(LimitExceeded, b.dataSize, 0);
      }
      var written := CopyBytes(out, 0, src, 0);
      return PayloadResult(if written < b.dataSize then OutputTruncated else Ok, b.dataSize, written);
    }
    res := PayloadResult(Unsupported, 0, 0);
  }

  method ExtractConcatParts(file: seq<Byte>, blocks: seq<Block>, parts: array<U32>, count: nat, out: array<Byte>,
                            options: PayloadOptions) returns (res: PayloadResult)
    requires count <= parts.Length && ValidParts(parts[..count], blocks) && out.Length <= SPAN_MAX
    modifies out
    ensures res == ResultFor(ConcatParts(file, blocks, parts[..count], options), out.Length)
    ensures out[..] == Overlay(old(out[..]), ConcatParts(file, blocks, parts[..count], options).copied)
  {
    ghost var ps := parts[..count];
    var needed: nat := 0;
    var i := 0;
    while i < count
      invariant 0 <= i <= count && needed == TotalSize(blocks, ps, i) <= U64_MAX
      invariant ConcatObjection(file, blocks, ps, i, options).None?
    {
      var b := blocks[parts[i]];
      if !InFile(file, b) || b.dataSize > U64_MAX - needed {
        ObjectionStays(file, blocks, ps, i + 1, count, options);
        return PayloadResult(Malformed, 0, 0);
      }
      needed := needed + b.dataSize;
      if OverLimit(needed, options) {
        ObjectionStays(file, blocks, ps, i + 1, count, options);
        return PayloadResult(LimitExceeded, needed, 0);
      }
      i := i + 1;
    }
    NoObjection(file, blocks, ps, count, options);
    assert ps[..count] == ps;
    var written := CopyParts(file, blocks, parts, count, out);
    res := PayloadResult(if written < needed then OutputTruncated else Ok, needed, written);
  }

  lemma {:induction false} ObjectionStays(file: seq<Byte>, blocks: seq<Block>, parts: seq<U32>, m: nat, n: nat,
                                          options: PayloadOptions)
    requires m <= n <= |parts| && ValidParts(parts, blocks)
    requires ConcatObjection(file, blocks, parts, m, options).Some?
    ensures ConcatObjection(file, blocks, parts, n, options) == ConcatObjection(file, blocks, parts, m, options)
  {
    if m < n {
      ObjectionStays(file, blocks, parts, m, n - 1, options);
    }
  }

  lemma JoinedStep(file: seq<Byte>, blocks: seq<Block>, parts: seq<U32>, i: nat)
    requires i < |parts| && ValidParts(parts, blocks) && AllInFile(file, blocks, parts)
    ensures AllInFile(file, blocks, parts[..i]) && AllInFile(file, blocks, parts[..i + 1])
            && InFile(file, blocks[parts[i]])
    ensures Joined(file, blocks, parts, i + 1) == Joined(file, blocks, parts, i) + BlockBytes(file, blocks[parts[i]])
    ensures TotalSize(blocks, parts, i + 1) == TotalSize(blocks, parts, i) + blocks[parts[i]].dataSize
    ensures |Joined(file, blocks, parts, i)| == TotalSize(blocks, parts, i)
  {
    assert parts[..i + 1] == parts[..i] + [parts[i]];
    hide BlockBytes;
  }

  method CopyParts(file: seq<Byte>, blocks: seq<Block>, parts: array<U32>, count: nat, out: array<Byte>)
    returns (written: nat)
    requires count <= parts.Length && ValidParts(parts[..count], blocks) && AllInFile(file, blocks, parts[..count])
    modifies out
    ensures parts[..count][..count] == parts[..count]
    ensures out[..] == Overlay(old(out[..]), Joined(file, blocks, parts[..count], count))
    ensures written == Min(TotalSize(blocks, parts[..count], count), out.Length)
  {
    ghost var buffer, ps := out[..], parts[..count];
    written := 0;
    var i := 0;
    while i < count
      invariant 0 <= i <= count && AllInFile(file, blocks, ps[..i])
      invariant out[..] == Overlay(buffer, Joined(file, blocks, ps, i))
      invariant written == Min(TotalSize(blocks, ps, i), out.Length)
    {
      JoinedStep(file, blocks, ps, i);
      var b := blocks[parts[i]];
      assert b == blocks[ps[i]];
      hide *;
      written := CopyNext(out, written, BlockBytes(file, b), written, buffer, Joined(file, blocks, ps, i));
      i := i + 1;
    }
    assert ps[..count] == ps;
  }

  /** One more part that continues the stream. */
  lemma ContiguousGoesOn(file: seq<Byte>, blocks: seq<Block>, parts: seq<U32>, i: nat, logicalSize: nat)
    requires i < |parts| && ValidParts(parts, blocks)
    requires Contiguous(file, blocks, parts, i, logicalSize) == i && Continues(file, blocks, parts, i, logicalSize)
    ensures Contiguous(file, blocks, parts, i + 1, logicalSize) == i + 1
    ensures TotalSize(blocks, parts, i + 1) == TotalSize(blocks, parts, i) + blocks[parts[i]].dataSize <= logicalSize
    ensures Joined(file, blocks, parts, i + 1) == Joined(file, blocks, parts, i) + BlockBytes(file, blocks[parts[i]])
  {
    hide BlockBytes;
  }

  lemma ContinuesMeans(file: seq<Byte>, blocks: seq<Block>, parts: seq<U32>, i: nat, logicalSize: nat)
    requires i < |parts| && ValidParts(parts, blocks)
    ensures var b, start := blocks[parts[i]], TotalSize(blocks, parts, i);
            Continues(file, blocks, parts, i, logicalSize)
            <==> InFile(file, b) && b.logicalOffset == start && start + b.dataSize <= logicalSize
  {
    hide InFile;
    hide TotalSize;
  }

  /** Copies the parts as long as they continue the stream; `expected` is where it stands after them. */
  method CopyContiguous(file: seq<Byte>, blocks: seq<Block>, parts: array<U32>, count: nat, logicalSize: U64,
                        out: array<Byte>)
    returns (complete: bool, expected: nat, written: nat)
    requires count <= parts.Length && ValidParts(parts[..count], blocks) && out.Length <= SPAN_MAX
    modifies out
    ensures parts[..count] == old(parts[..count])
    ensures var ps := parts[..count];
            var n := Contiguous(file, blocks, ps, count, logicalSize);
            && (complete <==> n == count) && out[..] == Overlay(old(out[..]), Joined(file, blocks, ps, n))
            && (complete ==>
                 && expected == TotalSize(blocks, ps, n) <= logicalSize
                 && written == Min(expected, out.Length))
  {
    OverlayNothing(out[..]);
    ghost var buffer, ps := out[..], parts[..count];
    assert Contiguous(file, blocks, ps, 0, logicalSize) == 0 && TotalSize(blocks, ps, 0) == 0
        && Joined(file, blocks, ps, 0) == [];
    hide Overlay;
    hide BlockBytes;
    hide Contiguous;
    hide TotalSize;
    hide Joined;
    hide AllInFile;
    complete, expected, written := true, 0, 0;
    var i := 0;
    while i < count
      invariant 0 <= i <= count && Contiguous(file, blocks, ps, i, logicalSize) == i
      invariant expected == TotalSize(blocks, ps, i) <= logicalSize
      invariant out[..] == Overlay(buffer, Joined(file, blocks, ps, i))
      invariant written == Min(expected, out.Length)
    {
      var b := blocks[parts[i]];
      assert b == blocks[ps[i]];
      ContinuesMeans(file, blocks, ps, i, logicalSize);
      hide InFile;
      hide Continues;
      if !InFile(file, b) || b.logicalOffset != expected || b.dataSize > logicalSize - expected {
        ContiguousStops(file, blocks, ps, i, count, logicalSize);
        complete := false;
        return;
      }
      ContiguousGoesOn(file, blocks, ps, i, logicalSize);
      written := CopyNext(out, expected, BlockBytes(file, b), written, buffer, Joined(file, blocks, ps, i));
      expected := expected + b.dataSize;
      i := i + 1;
    }
  }

  method ExtractOffsetParts(file: seq<Byte>, blocks: seq<Block>, parts: array<U32>, count: nat, logicalSize: U64,
                            out: array<Byte>, options: PayloadOptions) returns (res: PayloadResult)
    requires count <= parts.Length && ValidParts(parts[..count], blocks) && out.Length <= SPAN_MAX
    modifies out
    ensures res == ResultFor(OffsetParts(file, blocks, parts[..count], logicalSize, options), out.Length)
    ensures out[..] == Overlay(old(out[..]), OffsetParts(file, blocks, parts[..count], logicalSize, options).copied)
  {
    OverlayNothing(out[..]);
    hide Overlay;
    hide BlockBytes;
    hide Contiguous;
    hide TotalSize;
    hide Joined;
    hide AllInFile;
    if logicalSize == 0 {
      return PayloadResult(Malformed, 0, 0);
    }
    if OverLimit(logicalSize, options) {
      return PayloadResult(LimitExceeded, logicalSize, 0);
    }
    var complete, expected, written := CopyContiguous(file, blocks, parts, count, logicalSize, out);
    if !complete || expected != logicalSize {
      return PayloadResult(Malformed, 0, 0);
    }
    res := PayloadResult(if written < logicalSize then OutputTruncated else Ok, logicalSize, written);
  }

  /** The run of contiguous parts ends at the first part that does not continue it. */
  lemma {:induction false} ContiguousStops(file: seq<Byte>, blocks: seq<Block>, parts: seq<U32>, i: nat, n: nat,
                                           logicalSize: nat)
    requires i < n <= |parts| && ValidParts(parts, blocks)
    requires Contiguous(file, blocks, parts, i, logicalSize) == i && !Continues(file, blocks, parts, i, logicalSize)
    ensures Contiguous(file, blocks, parts, n, logicalSize) == i
  {
    if i + 1 < n {
      ContiguousStops(file, blocks, parts, i, n - 1, logicalSize);
    }
  }

  // ----- the members of a stream --------------------------------------------------------------

  /** Writes the numbers of the blocks of the seed's stream to the scratch array. */
  method CollectMembers(blocks: seq<Block>, seed: Block, scratch: array<U32>, maxParts: U32)
    returns (failure: Option<PayloadResult>, count: nat)
    requires |blocks| <= U32_MAX
    modifies scratch
    ensures var members := Members(seed, blocks, |blocks|);
            if |members| > maxParts && maxParts <= scratch.Length
                then failure == Some(PayloadResult(LimitExceeded, maxParts, 0))
            else if |members| > scratch.Length then failure == Some(PayloadResult(LimitExceeded, scratch.Length + 1, 0))
            else failure == None && count <= scratch.Length && scratch[..count] == members
  {
    count := 0;
    var i := 0;
    while i < |blocks|
      invariant 0 <= i <= |blocks| && count <= scratch.Length && count <= maxParts
      invariant scratch[..count] == Members(seed, blocks, i)
    {
      var b := blocks[i];
      if SameStream(seed, b) {
        if count >= maxParts {
          MembersGrow(seed, blocks, i + 1, |blocks|);
          return Some(PayloadResult(LimitExceeded, count, 0)), count;
        }
        if count >= scratch.Length {
          MembersGrow(seed, blocks, i + 1, |blocks|);
          return Some(PayloadResult(LimitExceeded, count + 1, 0)), count;
        }
        ghost var before := scratch[..count];
        scratch[count] := i;
        count := count + 1;
        assert scratch[..count] == before + [i];
      }
      i := i + 1;
    }
    failure := None;
  }

  lemma {:induction false} MembersGrow(seed: Block, blocks: seq<Block>, m: nat, n: nat)
    requires m <= n <= |blocks| <= U32_MAX
    ensures Members(seed, blocks, m) <= Members(seed, blocks, n)
  {
    if m < n {
      MembersGrow(seed, blocks, m, n - 1);
    }
  }

  // ----- the streams -----------------------------------------------------------------------------

  method CheckNumbered(blocks: seq<Block>, parts: array<U32>, count: nat) returns (ok: bool)
    requires count <= parts.Length && ValidParts(parts[..count], blocks)
    ensures ok <==> Numbered(blocks, parts[..count])
  {
    var i := 0;
    while i < count
      invariant 0 <= i <= count
      invariant forall k :: 0 <= k < i ==> blocks[parts[..count][k]].partIndex == k
    {
      assert parts[i] == parts[..count][i];
      if blocks[parts[i]].partIndex != i {
        return false;
      }
      i := i + 1;
    }
    ok := true;
  }

  method ExtractIndexStream(file: seq<Byte>, blocks: seq<Block>, seed: Block, parts: array<U32>, count: nat,
                            out: array<Byte>, options: PayloadOptions) returns (res: PayloadResult)
    requires count <= parts.Length && ValidParts(parts[..count], blocks) && out.Length <= SPAN_MAX
    requires count <= |blocks| <= U32_MAX
    modifies out
    ensures res == ResultFor(IndexStream(file, blocks, seed, parts[..count], options), out.Length)
    ensures out[..] == Overlay(old(out[..]), IndexStream(file, blocks, seed, parts[..count], options).copied)
  {
    var expectedTotal := if seed.partCount != 0 then seed.partCount else count;
    if expectedTotal == 0 || expectedTotal > options.maxParts {
      return PayloadResult(LimitExceeded, 0, 0);
    }
    if count != expectedTotal {
      return PayloadResult(Malformed, 0, 0);
    }
    var ok := CheckNumbered(blocks, parts, count);
    if !ok {
      return PayloadResult(Malformed, 0, 0);
    }
    res := ExtractConcatParts(file, blocks, parts, count, out, options);
  }

  /** The furthest end of the parts, and the last declared size. */
  method MeasureParts(blocks: seq<Block>, parts: array<U32>, count: nat) returns (end: Option<U64>, declared: U64)
    requires count <= parts.Length && ValidParts(parts[..count], blocks)
    ensures end == FurthestEnd(blocks, parts[..count], count)
    ensures end.Some? ==> declared == DeclaredSize(blocks, parts[..count], count)
  {
    ghost var ps := parts[..count];
    var far: U64 := 0;
    declared := 0;
    var i := 0;
    while i < count
      invariant 0 <= i <= count && FurthestEnd(blocks, ps, i) == Some(far) && declared == DeclaredSize(blocks, ps, i)
    {
      var b := blocks[parts[i]];
      assert b == blocks[ps[i]];
      if b.logicalSize != 0 {
        declared := b.logicalSize;
      }
      if b.logicalOffset > U64_MAX - b.dataSize {
        NoEndStays(blocks, ps, i + 1, count);
        return None, declared;
      }
      far := Max(far, b.logicalOffset + b.dataSize);
      i := i + 1;
    }
    end := Some(far);
  }

  lemma {:induction false} NoEndStays(blocks: seq<Block>, parts: seq<U32>, m: nat, n: nat)
    requires m <= n <= |parts| && ValidParts(parts, blocks) && FurthestEnd(blocks, parts, m).None?
    ensures FurthestEnd(blocks, parts, n).None?
  {
    if m < n {
      NoEndStays(blocks, parts, m, n - 1);
    }
  }

  method ExtractXmpStream(file: seq<Byte>, blocks: seq<Block>, seed: Block, parts: array<U32>, count: nat,
                          out: array<Byte>, options: PayloadOptions) returns (res: PayloadResult)
    requires count <= parts.Length && ValidParts(parts[..count], blocks) && out.Length <= SPAN_MAX
    modifies out
    ensures res == ResultFor(XmpStream(file, blocks, seed, parts[..count], options), out.Length)
    ensures out[..] == Overlay(old(out[..]), XmpStream(file, blocks, seed, parts[..count], options).copied)
  {
    var logicalSize := seed.logicalSize;
    if logicalSize == 0 {
      var end, _ := MeasureParts(blocks, parts, count);
      if end.None? {
        return PayloadResult(Malformed, 0, 0);
      }
      logicalSize := end.value;
    }
    res := ExtractOffsetParts(file, blocks, parts, count, logicalSize, out, options);
  }

  method HasOffsets(blocks: seq<Block>, parts: array<U32>, count: nat) returns (any: bool)
    requires count <= parts.Length && ValidParts(parts[..count], blocks)
    ensures any == AnyOffsets(blocks, parts[..count])
  {
    var i := 0;
    while i < count
      invariant 0 <= i <= count
      invariant forall k :: 0 <= k < i ==> blocks[parts[..count][k]].logicalOffset == 0
    {
      assert parts[i] == parts[..count][i];
      if blocks[parts[i]].logicalOffset != 0 {
        return true;
      }
      i := i + 1;
    }
    any := false;
  }

  method ExtractOffsetStream(file: seq<Byte>, blocks: seq<Block>, parts: array<U32>, count: nat,
                             out: array<Byte>, options: PayloadOptions) returns (res: PayloadResult)
    requires count <= parts.Length && ValidParts(parts[..count], blocks) && out.Length <= SPAN_MAX
    modifies out
    ensures res == ResultFor(OffsetStream(file, blocks, parts[..count], options), out.Length)
    ensures out[..] == Overlay(old(out[..]), OffsetStream(file, blocks, parts[..count], options).copied)
  {
    var end, declared := MeasureParts(blocks, parts, count);
    if end.None? {
      return PayloadResult(Malformed, 0, 0);
    }
    var logicalSize := if declared == 0 then end.value else declared;
    res := ExtractOffsetParts(file, blocks, parts, count, logicalSize, out, options);
  }

  method ExtractStream(file: seq<Byte>, blocks: seq<Block>, seed: Block, scratch: array<U32>, count: nat,
                       out: array<Byte>, options: PayloadOptions, ghost members: seq<U32>) returns (res: PayloadResult)
    requires |blocks| <= U32_MAX && out.Length <= SPAN_MAX && count <= |blocks|
    requires count <= scratch.Length && scratch[..count] == members && ValidParts(members, blocks)
    modifies out, scratch
    ensures res == ResultFor(StreamOf(file, blocks, seed, members, options), out.Length)
    ensures out[..] == Overlay(old(out[..]), StreamOf(file, blocks, seed, members, options).copied)
  {
    if seed.chunking == JpegApp2SeqTotal {
      InsertionSort(scratch, count, PartKeys(blocks));
      res := ExtractIndexStream(file, blocks, seed, scratch, count, out, options);
      return;
    }
    if seed.chunking == JpegXmpExtendedGuidOffset {
      InsertionSort(scratch, count, OffsetKeys(blocks));
      res := ExtractXmpStream(file, blocks, seed, scratch, count, out, options);
      return;
    }
    InsertionSort(scratch, count, PartKeys(blocks));
    var anyOffsets := HasOffsets(blocks, scratch, count);
    if anyOffsets {
      InsertionSort(scratch, count, OffsetKeys(blocks));
      res := ExtractOffsetStream(file, blocks, scratch, count, out, options);
      return;
    }
    res := ExtractIndexStream(file, blocks, seed, scratch, count, out, options);
  }

  method ExtractPayload(file: seq<Byte>, blocks: seq<Block>, seedIndex: U32, out: array<Byte>, scratch: array<U32>,
                        options: PayloadOptions) returns (res: PayloadResult)
    requires |file| <= SPAN_MAX && out.Length <= SPAN_MAX && |blocks| <= U32_MAX
    modifies out, scratch
    ensures var o := Extraction(file, blocks, seedIndex, scratch.Length, options);
            res == ResultFor(o, out.Length) && out[..] == Overlay(old(out[..]), o.copied)
  {
    if seedIndex >= |blocks| {
      return PayloadResult(Malformed, 0, 0);
    }
    var seed := blocks[seedIndex];
    if IsSingle(seed) {
      res := ExtractSingleBlock(file, seed, out, options);
      return;
    }
    var failure, count := CollectMembers(blocks, seed, scratch, options.maxParts);
    if failure.Some? {
      return failure.value;
    }
    if count == 0 {
      return PayloadResult(Malformed, 0, 0);
    }
    res := ExtractStream(file, blocks, seed, scratch, count, out, options, Members(seed, blocks, |blocks|));
  }
}
