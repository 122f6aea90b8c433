/**
 * Payload extraction through a random-access source, uncompressed. The source is an oracle: a read of
 * a range inside the file returns exactly its bytes.
 */
module RandomPayload {
  import opened Bytes
  import opened Blocks
  import opened PartSort
  import opened PayloadSpec
  import P = Payload

  // ----- what it yields ---------------------------------------------------------------------------

  /** GIF sub-blocks; unlike the in-memory form, this one insists on the terminator. */
  function GifFrom(src: seq<Byte>, p: nat, done: seq<Byte>, options: PayloadOptions): Outcome
    requires p <= |src| <= SPAN_MAX && |done| <= p
    decreases |src| - p
  {
    if p == |src| then Outcome(Malformed, 0, done, false)
    else if src[p] == 0 then Stream(done)
    else
      var size := src[p] as nat;
      if size > |src| - (p + 1) then Outcome(Malformed, 0, done, false)
      else if OverLimit(|done| + size, options) then Outcome(LimitExceeded, |done| + size, done, true)
      else GifFrom(src, p + 1 + size, done + src[p + 1..p + 1 + size], options)
  }

  function SingleBlock(file: seq<Byte>, b: Block, options: PayloadOptions): Outcome
    requires |file| <= SPAN_MAX
  {
    if !InFile(file, b) then Failure(Malformed, 0)
    else if b.chunking == GifSubBlocks then GifFrom(BlockBytes(file, b), 0, [], options)
    else if OverLimit(b.dataSize, options) then Failure(LimitExceeded, b.dataSize)
    else Stream(BlockBytes(file, b))
  }

  /** All sizes are added up before the output limit is looked at. */
  function ConcatParts(file: seq<Byte>, blocks: seq<Block>, parts: seq<U32>, options: PayloadOptions): Outcome
    requires ValidParts(parts, blocks)
  {
    var total := TotalSize(blocks, parts, |parts|);
    if !AllInFile(file, blocks, parts) || total > U64_MAX then Failure(Malformed, 0)
    else if OverLimit(total, options) then Failure(LimitExceeded, total)
    else
      assert parts[..|parts|] == parts;
      Stream(Joined(file, blocks, parts, |parts|))
  }

  function IndexStream(file: seq<Byte>, blocks: seq<Block>, seed: Block, parts: seq<U32>,
                       options: PayloadOptions): Outcome
    requires ValidParts(parts, blocks) && |parts| <= U32_MAX
  {
    var expected := if seed.partCount != 0 then seed.partCount else |parts|;
    if expected > options.maxParts then Failure(LimitExceeded, 0)
    else if expected == 0 || |parts| != expected || !Numbered(blocks, parts) then Failure(Malformed, 0)
    else ConcatParts(file, blocks, parts, options)
  }

  /** A declared size replaces what was measured before it, and ends beyond it extend it. */
  function MeasuredSize(blocks: seq<Block>, parts: seq<U32>, n: nat): Option<U64>
    requires n <= |parts| && ValidParts(parts, blocks)
  {
    if n == 0 then Some(0)
    else
      var b := blocks[parts[n - 1]];
      match MeasuredSize(blocks, parts, n - 1)
      case None => None
      case Some(before) =>
        var size := if b.logicalSize != 0 then b.logicalSize else before;
        var end := b.logicalOffset + b.dataSize;
        if end > U64_MAX then None else Some(if size == 0 || end > size then end else size)
  }

  function OffsetStream(file: seq<Byte>, blocks: seq<Block>, parts: seq<U32>, options: PayloadOptions): Outcome
    requires ValidParts(parts, blocks)
  {
    match MeasuredSize(blocks, parts, |parts|)
    case None => Failure(Malformed, 0)
    case Some(size) => OffsetParts(file, blocks, parts, size, options)
  }

  function StreamOf(file: seq<Byte>, blocks: seq<Block>, seed: Block, members: seq<U32>,
                    options: PayloadOptions): Outcome
    requires ValidParts(members, blocks) && |members| <= U32_MAX
  {
    if seed.chunking == JpegApp2SeqTotal then
      IndexStream(file, blocks, seed, SortByKey(members, PartKeys(blocks)), options)
    else if seed.chunking == JpegXmpExtendedGuidOffset then
      XmpStream(file, blocks, seed, SortByKey(members, OffsetKeys(blocks)), options)
    else
      var parts := SortByKey(members, PartKeys(blocks));
      if AnyOffsets(blocks, parts) then OffsetStream(file, blocks, SortByKey(parts, OffsetKeys(blocks)), options)
      else IndexStream(file, blocks, seed, parts, options)
  }

  function Extraction(file: seq<Byte>, blocks: seq<Block>, seedIndex: U32, scratch: nat,
                      options: PayloadOptions): Outcome
    requires |file| <= SPAN_MAX && |blocks| <= U32_MAX
  {
    if seedIndex >= |blocks| then Failure(Malformed, 0)
    else if IsSingle(blocks[seedIndex]) then SingleBlock(file, blocks[seedIndex], options)
    else
      var seed := blocks[seedIndex];
      var members := Members(seed, blocks, |blocks|);
      var room := Min(options.maxParts, scratch);
      if |members| > room then Failure(LimitExceeded, room + 1)
      else if members == [] then Failure(Malformed, 0)
      else StreamOf(file, blocks, seed, members, options)
  }

  // ----- the reader ---------------------------------------------------------------------------------

  /** Copies a range of the source to the output; nothing is read for what does not fit. */
  method RandomCopy(file: seq<Byte>, offset: nat, size: nat, out: array<Byte>, destination: nat, written: nat,
                    ghost buffer: seq<Byte>, ghost copied: seq<Byte>) returns (ok: bool, newWritten: nat)
    requires |file| <= SPAN_MAX && |buffer| == out.Length && out[..] == Overlay(buffer, copied)
    requires written == Min(|copied|, out.Length)
    requires destination == |copied| || (destination == written == out.Length)
    modifies out
    ensures ok <==> CheckedRange(offset, size, |file|)
    ensures ok ==> out[..] == Overlay(buffer, copied + file[offset..offset + size])
                   && newWritten == Min(|copied| + size, out.Length)
    ensures !ok ==> out[..] == old(out[..]) && newWritten == written
  {
    newWritten := written;
    if !CheckedRange(offset, size, |file|) {
      return false, written;
    }
    ok := true;
    ghost var piece := file[offset..offset + size];
    if destination >= out.Length || size == 0 {
      if |copied| >= out.Length {
        P.OverlayFull(buffer, copied, piece);
      } else {
        assert copied + piece == copied;
      }
      return;
    }
    var room := out.Length - destination;
    var count := if size < room then size else room;
    newWritten := P.CopyNext(out, destination, file[offset..offset + count], written, buffer, copied);
    assert Overlay(buffer, copied + file[offset..offset + count]) == Overlay(buffer, copied + piece);
  }

  lemma BlockByte(file: seq<Byte>, b: Block, p: nat)
    requires InFile(file, b) && p < b.dataSize
    ensures BlockBytes(file, b)[p] == file[b.dataOffset + p]
  {
  }

  lemma BlockSlice(file: seq<Byte>, b: Block, p: nat, n: nat)
    requires InFile(file, b) && p + n <= b.dataSize
    ensures file[b.dataOffset + p..b.dataOffset + p + n] == BlockBytes(file, b)[p..p + n]
  {
    SliceOfSlice(file, b.dataOffset, b.dataSize, p, n);
  }

  /** What stands at position `p` decides how the sub-blocks go on. */
  lemma GifStep(src: seq<Byte>, p: nat, done: seq<Byte>, options: PayloadOptions)
    requires p < |src| <= SPAN_MAX && |done| <= p
    ensures GifFrom(src, p, done, options)
            == var size := src[p] as nat;
               if size == 0 then Stream(done)
               else if size > |src| - (p + 1) then Outcome(Malformed, 0, done, false)
               else if OverLimit(|done| + size, options) then Outcome(LimitExceeded, |done| + size, done, true)
               else GifFrom(src, p + 1 + size, done + src[p + 1..p + 1 + size], options)
  {
  }

  lemma GifEnd(src: seq<Byte>, done: seq<Byte>, options: PayloadOptions)
    requires |done| <= |src| <= SPAN_MAX
    ensures GifFrom(src, |src|, done, options) == Outcome(Malformed, 0, done, false)
  {
  }

  method ExtractGifSubblocks(file: seq<Byte>, b: Block, out: array<Byte>, options: PayloadOptions)
    returns (res: PayloadResult)
    requires |file| <= SPAN_MAX && InFile(file, b) && out.Length <= SPAN_MAX
    modifies out
    ensures res == ResultFor(GifFrom(BlockBytes(file, b), 0, [], options), out.Length)
    ensures out[..] == Overlay(old(out[..]), GifFrom(BlockBytes(file, b), 0, [], options).copied)
  {
    ghost var src := BlockBytes(file, b);
    ghost var buffer, done: seq<Byte> := out[..], [];
    P.OverlayNothing(buffer);
    var needed: nat, written: nat, p: nat := 0, 0, 0;
    while p < b.dataSize
      invariant p <= |src| && GifAt(src, p, done, needed, written, buffer, out[..], options)
    {
      var sub := file[b.dataOffset + p] as nat;
      BlockByte(file, b, p);
      GifDone(src, p, done, needed, written, buffer, out[..], options);
      hide *;
      p := p + 1;
      if sub == 0 {
        return PayloadResult(if written < needed then OutputTruncated else Ok, needed, written);
      }
      if sub > b.dataSize - p {
        return PayloadResult(Malformed, 0, 0);
      }
      needed := needed + sub;
      if OverLimit(needed, options) {
        return PayloadResult(LimitExceeded, needed, written);
      }
      done, written := CopySubBlock(file, b, p, sub, needed, out, written, options, buffer, done);
      p := p + sub;
    }
    GifEnd(src, done, options);
    res := PayloadResult(Malformed, 0, 0);
  }

  /** Where the walk over the sub-blocks is, and what it has handed over. */
  ghost predicate GifAt(src: seq<Byte>, p: nat, done: seq<Byte>, needed: nat, written: nat, buffer: seq<Byte>,
                        contents: seq<Byte>,
                        options: PayloadOptions)
  {
    && p <= |src| <= SPAN_MAX && |buffer| <= SPAN_MAX && |done| == needed <= p && written == Min(needed, |buffer|)
    && contents == Overlay(buffer, done) && GifFrom(src, 0, [], options) == GifFrom(src, p, done, options)
  }

  /** The ways for the walk to end at a sub-block. */
  lemma GifDone(src: seq<Byte>, p: nat, done: seq<Byte>, needed: nat, written: nat, buffer: seq<Byte>,
                contents: seq<Byte>,
                options: PayloadOptions)
    requires GifAt(src, p, done, needed, written, buffer, contents, options) && p < |src|
    ensures |src| <= SPAN_MAX && |buffer| <= SPAN_MAX
    ensures var sub, outcome := src[p] as nat, GifFrom(src, 0, [], options);
            && (sub == 0 || sub > |src| - (p + 1) || OverLimit(needed + sub, options) ==>
                contents == Overlay(buffer, outcome.copied))
            && (sub == 0 ==>
                  ResultFor(outcome, |buffer|) == PayloadResult(if written < needed then OutputTruncated else Ok,
                                                                needed, written))
            && (sub > |src| - (p + 1) ==> ResultFor(outcome, |buffer|) == PayloadResult(Malformed, 0, 0))
            && (0 < sub <= |src| - (p + 1) && OverLimit(needed + sub, options) ==>
                  ResultFor(outcome, |buffer|) == PayloadResult(LimitExceeded, needed + sub, written))
  {
    GifStep(src, p, done, options);
    hide Overlay;
    hide GifFrom;
  }

  lemma GifOn(src: seq<Byte>, p: nat, done: seq<Byte>, needed: nat, written: nat, buffer: seq<Byte>,
              contents: seq<Byte>,
              options: PayloadOptions)
    requires GifAt(src, p, done, needed, written, buffer, contents, options) && p < |src|
    requires 0 < src[p] as nat <= |src| - (p + 1) && !OverLimit(needed + src[p] as nat, options)
    ensures var sub := src[p] as nat;
            var longer := done + src[p + 1..p + 1 + sub];
            GifAt(src, p + 1 + sub, longer, needed + sub, Min(needed + sub, |buffer|), buffer, Overlay(buffer, longer),
                  options)
  {
    GifStep(src, p, done, options);
    hide Overlay;
    hide GifFrom;
  }

  lemma SubBlockReady(file: seq<Byte>, b: Block, p: nat, sub: nat, needed: nat, written: nat, options: PayloadOptions,
                      buffer: seq<Byte>, done: seq<Byte>, contents: seq<Byte>)
    requires |file| <= SPAN_MAX && InFile(file, b) && 0 < p && p + sub <= b.dataSize && 0 < sub <= needed
    requires BlockBytes(file, b)[p - 1] as nat == sub && !OverLimit(needed, options)
    requires GifAt(BlockBytes(file, b), p - 1, done, needed - sub, written, buffer, contents, options)
    ensures b.dataOffset + p + sub <= |file| && CheckedRange(b.dataOffset + p, sub, |file|)
    ensures contents == Overlay(buffer, done) && written == Min(|done|, |buffer|) && |done| == needed - sub
    ensures written == |done| || written == |buffer|
    ensures var longer := done + file[b.dataOffset + p..b.dataOffset + p + sub];
            GifAt(BlockBytes(file, b), p + sub, longer, needed, Min(needed, |buffer|), buffer, Overlay(buffer, longer),
                  options)
  {
    BlockSlice(file, b, p, sub);
    GifOn(BlockBytes(file, b), p - 1, done, needed - sub, written, buffer, contents, options);
    hide Overlay;
    hide BlockBytes;
    hide GifFrom;
  }

  /** Copies the sub-block at `p`, behind its size. */
  method CopySubBlock(file: seq<Byte>, b: Block, p: nat, sub: nat, needed: nat, out: array<Byte>, written: nat,
                      options: PayloadOptions,
                      ghost buffer: seq<Byte>, ghost done: seq<Byte>) returns (ghost longer: seq<Byte>, newWritten: nat)
    requires |file| <= SPAN_MAX && InFile(file, b) && 0 < p && p + sub <= b.dataSize && 0 < sub <= needed
             && |buffer| == out.Length
    requires BlockBytes(file, b)[p - 1] as nat == sub && !OverLimit(needed, options)
    requires GifAt(BlockBytes(file, b), p - 1, done, needed - sub, written, buffer, out[..], options)
    modifies out
    ensures |buffer| == out.Length
            && GifAt(BlockBytes(file, b), p + sub, longer, needed, newWritten, buffer, out[..], options)
  {
    SubBlockReady(file, b, p, sub, needed, written, options, buffer, done, out[..]);
    hide *;
    longer := done + file[b.dataOffset + p..b.dataOffset + p + sub];
    var ok;
    ok, newWritten := RandomCopy(file, b.dataOffset + p, sub, out, written, written, buffer, done);
  }

  method ExtractSingleBlock(file: seq<Byte>, b: Block, out: array<Byte>, options: PayloadOptions)
    returns (res: PayloadResult)
    requires |file| <= SPAN_MAX && out.Length <= SPAN_MAX
    modifies out
    ensures res == ResultFor(SingleBlock(file, b, options), out.Length)
    ensures out[..] == Overlay(old(out[..]), SingleBlock(file, b, options).copied)
  {
    P.OverlayNothing(out[..]);
    hide Overlay;
    hide GifFrom;
    if !InFile(file, b) {
      return PayloadResult(Malformed, 0, 0);
    }
    if b.chunking == GifSubBlocks {
      res := ExtractGifSubblocks(file, b, out, options);
      return;
    }
    if OverLimit(b.dataSize, options) {
      return PayloadResult(LimitExceeded, b.dataSize, 0);
    }
    assert [] + BlockBytes(file, b) == BlockBytes(file, b);
    var _, written := RandomCopy(file, b.dataOffset, b.dataSize, out, 0, 0, out[..], []);
    res := PayloadResult(if written < b.dataSize then OutputTruncated else Ok, b.dataSize, written);
  }

  /** The parts of a stream, placed one after another or at their logical offsets. */
  method ExtractParts(file: seq<Byte>, blocks: seq<Block>, parts: array<U32>, count: nat, logicalSize: U64,
                      useOffsets: bool,
                      out: array<Byte>, options: PayloadOptions) returns (res: PayloadResult)
    requires |file| <= SPAN_MAX && count <= parts.Length && ValidParts(parts[..count], blocks) && out.Length <= SPAN_MAX
    modifies out
    ensures var o := if useOffsets then OffsetParts(file, blocks, parts[..count], logicalSize, options)
                     else ConcatParts(file, blocks, parts[..count], options);
            res == ResultFor(o, out.Length) && out[..] == Overlay(old(out[..]), o.copied)
  {
    ghost var ps := parts[..count];
    P.OverlayNothing(out[..]);
    if useOffsets && logicalSize == 0 {
      return PayloadResult(Malformed, 0, 0);
    }
    var needed: nat := logicalSize;
    if !useOffsets {
      var valid, total := MeasureParts(file, blocks, parts, count);
      if !valid {
        return PayloadResult(Malformed, 0, 0);
      }
      needed := total;
    }
    if OverLimit(needed, options) {
      return PayloadResult(LimitExceeded, needed, 0);
    }
    var complete, written := CopyParts(file, blocks, parts, count, needed, useOffsets, out);
    if !complete {
      return PayloadResult(Malformed, 0, 0);
    }
    res := PayloadResult(if written < needed then OutputTruncated else Ok, needed, written);
  }

  method MeasureParts(file: seq<Byte>, blocks: seq<Block>, parts: array<U32>, count: nat)
    returns (valid: bool, total: nat)
    requires count <= parts.Length && ValidParts(parts[..count], blocks)
    ensures valid <==> AllInFile(file, blocks, parts[..count]) && TotalSize(blocks, parts[..count], count) <= U64_MAX
    ensures valid ==> total == TotalSize(blocks, parts[..count], count)
  {
    ghost var ps := parts[..count];
    total := 0;
    var i := 0;
    while i < count
      invariant 0 <= i <= count && total == TotalSize(blocks, ps, i) <= U64_MAX
      invariant forall k :: 0 <= k < i ==> InFile(file, blocks[ps[k]])
    {
      var b := blocks[parts[i]];
      assert b == blocks[ps[i]];
      if !InFile(file, b) || total > U64_MAX - b.dataSize {
        SizeMonotone(blocks, ps, i + 1, count);
        return false, 0;
      }
      total := total + b.dataSize;
      i := i + 1;
    }
    valid := true;
  }

  lemma {:induction false} SizeMonotone(blocks: seq<Block>, parts: seq<U32>, m: nat, n: nat)
    requires m <= n <= |parts| && ValidParts(parts, blocks)
    ensures TotalSize(blocks, parts, m) <= TotalSize(blocks, parts, n)
  {
    if m < n {
      SizeMonotone(blocks, parts, m, n - 1);
    }
  }

  /** How many parts are copied: with offsets, those that continue the stream; otherwise all. */
  ghost function CopiedParts(file: seq<Byte>, blocks: seq<Block>, parts: seq<U32>, n: nat, needed: nat,
                             useOffsets: bool): nat
    requires n <= |parts| && ValidParts(parts, blocks)
  {
    if useOffsets then Contiguous(file, blocks, parts, n, needed) else n
  }

  /** Part `i` is copied next, after the parts before it, exactly if it passes the checks of the loop. */
  lemma NextPart(file: seq<Byte>, blocks: seq<Block>, parts: seq<U32>, i: nat, needed: nat, useOffsets: bool)
    requires i < |parts| && ValidParts(parts, blocks)
    requires !useOffsets ==> AllInFile(file, blocks, parts) && needed == TotalSize(blocks, parts, |parts|)
    requires CopiedParts(file, blocks, parts, i, needed, useOffsets) == i
    ensures var b := blocks[parts[i]];
            var start := TotalSize(blocks, parts, i);
            var goes := InFile(file, b) && (useOffsets ==> b.logicalOffset == start) && start <= needed
                && b.dataSize <= needed - start;
            && (!useOffsets ==> goes)
            && (goes ==> CopiedParts(file, blocks, parts, i + 1, needed, useOffsets) == i + 1)
            && (!goes ==> CopiedParts(file, blocks, parts, |parts|, needed, useOffsets) == i)
  {
    if !useOffsets {
      SizeMonotone(blocks, parts, i + 1, |parts|);
    } else if !Continues(file, blocks, parts, i, needed) {
      P.ContiguousStops(file, blocks, parts, i, |parts|, needed);
    }
  }

  lemma PartStep(file: seq<Byte>, blocks: seq<Block>, parts: seq<U32>, i: nat)
    requires i < |parts| && ValidParts(parts, blocks) && AllInFile(file, blocks, parts[..i])
    ensures TotalSize(blocks, parts, i + 1) == TotalSize(blocks, parts, i) + blocks[parts[i]].dataSize
    ensures InFile(file, blocks[parts[i]]) ==> AllInFile(file, blocks, parts[..i + 1])
  {
    assert parts[..i + 1] == parts[..i] + [parts[i]];
  }

  /** Complete exactly if all parts are copied and end at `needed`. */
  method CopyParts(file: seq<Byte>, blocks: seq<Block>, parts: array<U32>, count: nat, needed: U64, useOffsets: bool,
                   out: array<Byte>)
    returns (complete: bool, written: nat)
    requires |file| <= SPAN_MAX && count <= parts.Length && ValidParts(parts[..count], blocks) && out.Length <= SPAN_MAX
    requires !useOffsets ==>
               && AllInFile(file, blocks, parts[..count])
               && needed == TotalSize(blocks, parts[..count], count)
    modifies out
    ensures var ps := parts[..count];
            var n := CopiedParts(file, blocks, ps, count, needed, useOffsets);
            && n <= count && AllInFile(file, blocks, ps[..n])
            && (complete <==> n == count && TotalSize(blocks, ps, count) == needed)
            && (complete ==> written == Min(needed, out.Length))
            && out[..] == Overlay(old(out[..]), Joined(file, blocks, ps, n))
  {
    ghost var buffer, ps := out[..], parts[..count];
    P.OverlayNothing(buffer);
    hide Overlay;
    hide BlockBytes;
    hide CopiedParts;
    var expected, i: nat := 0, 0;
    written := 0;
    NothingCopied(file, blocks, ps, needed, useOffsets);
    while i < count
      invariant 0 <= i <= count && AllInFile(file, blocks, ps[..i])
      invariant CopiedParts(file, blocks, ps, i, needed, useOffsets) == i
      invariant expected == TotalSize(blocks, ps, i)
      invariant out[..] == Overlay(buffer, Joined(file, blocks, ps, i))
      invariant written == Min(expected, out.Length)
    {
      var b := blocks[parts[i]];
      assert b == blocks[ps[i]];
      PartStep(file, blocks, ps, i);
      NextPart(file, blocks, ps, i, needed, useOffsets);
      hide *;
      var destination := if useOffsets then b.logicalOffset else expected;
      if !InFile(file, b) || (useOffsets && destination != expected) || destination > needed
          || b.dataSize > needed - destination {
        return false, written;
      }
      var more := CopyPart(file, b, out, destination, written, blocks, ps, i, buffer);
      written, expected, i := more, destination + b.dataSize, i + 1;
    }
    complete := expected == needed;
  }

  lemma NothingCopied(file: seq<Byte>, blocks: seq<Block>, parts: seq<U32>, needed: nat, useOffsets: bool)
    requires ValidParts(parts, blocks)
    ensures CopiedParts(file, blocks, parts, 0, needed, useOffsets) == 0
  {
  }

  method CopyPart(file: seq<Byte>, b: Block, out: array<Byte>, destination: nat, written: nat,
                  ghost blocks: seq<Block>, ghost ps: seq<U32>, ghost i: nat, ghost buffer: seq<Byte>)
                    returns (more: nat)
    requires |file| <= SPAN_MAX && i < |ps| && ValidParts(ps, blocks) && b == blocks[ps[i]]
    requires AllInFile(file, blocks, ps[..i]) && AllInFile(file, blocks, ps[..i + 1]) && InFile(file, b)
    requires |buffer| == out.Length && out[..] == Overlay(buffer, Joined(file, blocks, ps, i))
    requires destination == TotalSize(blocks, ps, i) && written == Min(destination, out.Length)
    modifies out
    ensures out[..] == Overlay(buffer, Joined(file, blocks, ps, i + 1))
    ensures more == Min(TotalSize(blocks, ps, i + 1), out.Length)
  {
    var ok;
    ok, more := RandomCopy(file, b.dataOffset, b.dataSize, out, destination, written, buffer,
                           Joined(file, blocks, ps, i));
  }

  // ----- the whole extraction ---------------------------------------------------------------------

  method CollectMembers(blocks: seq<Block>, seed: Block, scratch: array<U32>, maxParts: U32)
    returns (failure: Option<PayloadResult>, count: nat)
    requires |blocks| <= U32_MAX
    modifies scratch
    ensures var members, room := Members(seed, blocks, |blocks|), Min(maxParts, scratch.Length);
            if |members| > room then failure == Some(PayloadResult(LimitExceeded, room + 1, 0))
            else failure == None && count <= scratch.Length && scratch[..count] == members
  {
    count := 0;
    var i := 0;
    while i < |blocks|
      invariant 0 <= i <= |blocks| && count <= scratch.Length && count <= maxParts
      invariant scratch[..count] == Members(seed, blocks, i)
    {
      if SameStream(seed, blocks[i]) {
        if count >= maxParts || count >= scratch.Length {
          P.MembersGrow(seed, blocks, i + 1, |blocks|);
          return Some(PayloadResult(LimitExceeded, count + 1, 0)), count;
        }
        ghost var before := scratch[..count];
        scratch[count] := i;
        count := count + 1;
        assert scratch[..count] == before + [i];
      }
      i := i + 1;
    }
    failure := None;
  }

  method ExtractIndexStream(file: seq<Byte>, blocks: seq<Block>, seed: Block, parts: array<U32>, count: nat,
                            out: array<Byte>, options: PayloadOptions) returns (res: PayloadResult)
    requires |file| <= SPAN_MAX && count <= parts.Length && ValidParts(parts[..count], blocks) && out.Length <= SPAN_MAX
    requires count <= |blocks| <= U32_MAX
    modifies out
    ensures res == ResultFor(IndexStream(file, blocks, seed, parts[..count], options), out.Length)
    ensures out[..] == Overlay(old(out[..]), IndexStream(file, blocks, seed, parts[..count], options).copied)
  {
    P.OverlayNothing(out[..]);
    hide Overlay;
    var expectedTotal := if seed.partCount != 0 then seed.partCount else count;
    if expectedTotal == 0 || expectedTotal > options.maxParts || count != expectedTotal {
      return PayloadResult(if expectedTotal > options.maxParts then LimitExceeded else Malformed, 0, 0);
    }
    var ok := P.CheckNumbered(blocks, parts, count);
    if !ok {
      return PayloadResult(Malformed, 0, 0);
    }
    res := ExtractParts(file, blocks, parts, count, 0, false, out, options);
  }

  method MeasureOffsets(blocks: seq<Block>, parts: array<U32>, count: nat) returns (size: Option<U64>)
    requires count <= parts.Length && ValidParts(parts[..count], blocks)
    ensures size == MeasuredSize(blocks, parts[..count], count)
  {
    ghost var ps := parts[..count];
    var logicalSize: U64 := 0;
    var i := 0;
    while i < count
      invariant 0 <= i <= count && MeasuredSize(blocks, ps, i) == Some(logicalSize)
    {
      var b := blocks[parts[i]];
      assert b == blocks[ps[i]];
      if b.logicalSize != 0 {
        logicalSize := b.logicalSize;
      }
      if b.logicalOffset > U64_MAX - b.dataSize {
        NoSizeStays(blocks, ps, i + 1, count);
        return None;
      }
      var end := b.logicalOffset + b.dataSize;
      logicalSize := if logicalSize == 0 || end > logicalSize then end else logicalSize;
      i := i + 1;
    }
    size := Some(logicalSize);
  }

  lemma {:induction false} NoSizeStays(blocks: seq<Block>, parts: seq<U32>, m: nat, n: nat)
    requires m <= n <= |parts| && ValidParts(parts, blocks) && MeasuredSize(blocks, parts, m).None?
    ensures MeasuredSize(blocks, parts, n).None?
  {
    if m < n {
      NoSizeStays(blocks, parts, m, n - 1);
    }
  }

  method ExtractXmpStream(file: seq<Byte>, blocks: seq<Block>, seed: Block, parts: array<U32>, count: nat,
                          out: array<Byte>, options: PayloadOptions) returns (res: PayloadResult)
    requires |file| <= SPAN_MAX && count <= parts.Length && ValidParts(parts[..count], blocks) && out.Length <= SPAN_MAX
    modifies out
    ensures res == ResultFor(XmpStream(file, blocks, seed, parts[..count], options), out.Length)
    ensures out[..] == Overlay(old(out[..]), XmpStream(file, blocks, seed, parts[..count], options).copied)
  {
    P.OverlayNothing(out[..]);
    hide Overlay;
    var logicalSize := seed.logicalSize;
    if logicalSize == 0 {
      var end, _ := P.MeasureParts(blocks, parts, count);
      if end.None? {
        return PayloadResult(Malformed, 0, 0);
      }
      logicalSize := end.value;
    }
    res := ExtractParts(file, blocks, parts, count, logicalSize, true, out, options);
  }

  method ExtractOffsetStream(file: seq<Byte>, blocks: seq<Block>, parts: array<U32>, count: nat,
                             out: array<Byte>, options: PayloadOptions) returns (res: PayloadResult)
    requires |file| <= SPAN_MAX && count <= parts.Length && ValidParts(parts[..count], blocks) && out.Length <= SPAN_MAX
    modifies out
    ensures res == ResultFor(OffsetStream(file, blocks, parts[..count], options), out.Length)
    ensures out[..] == Overlay(old(out[..]), OffsetStream(file, blocks, parts[..count], options).copied)
  {
    P.OverlayNothing(out[..]);
    hide Overlay;
    var size := MeasureOffsets(blocks, parts, count);
    if size.None? {
      return PayloadResult(Malformed, 0, 0);
    }
    res := ExtractParts(file, blocks, parts, count, size.value, true, out, options);
  }

  method ExtractStream(file: seq<Byte>, blocks: seq<Block>, seed: Block, scratch: array<U32>, count: nat,
                       out: array<Byte>, options: PayloadOptions, ghost members: seq<U32>) returns (res: PayloadResult)
    requires |file| <= SPAN_MAX && |blocks| <= U32_MAX && out.Length <= SPAN_MAX && count <= |blocks|
    requires count <= scratch.Length && scratch[..count] == members && ValidParts(members, blocks)
    modifies out, scratch
    ensures res == ResultFor(StreamOf(file, blocks, seed, members, options), out.Length)
    ensures out[..] == Overlay(old(out[..]), StreamOf(file, blocks, seed, members, options).copied)
  {
    if seed.chunking == JpegApp2SeqTotal {
      InsertionSort(scratch, count, PartKeys(blocks));
      res := ExtractIndexStream(file, blocks, seed, scratch, count, out, options);
      return;
    }
    if seed.chunking == JpegXmpExtendedGuidOffset {
      InsertionSort(scratch, count, OffsetKeys(blocks));
      res := ExtractXmpStream(file, blocks, seed, scratch, count, out, options);
      return;
    }
    InsertionSort(scratch, count, PartKeys(blocks));
    var anyOffsets := P.HasOffsets(blocks, scratch, count);
    if anyOffsets {
      InsertionSort(scratch, count, OffsetKeys(blocks));
      res := ExtractOffsetStream(file, blocks, scratch, count, out, options);
      return;
    }
    res := ExtractIndexStream(file, blocks, seed, scratch, count, out, options);
  }

  /** The random-access extraction of uncompressed data. */
  method ExtractPayload(file: seq<Byte>, blocks: seq<Block>, seedIndex: U32, out: array<Byte>, scratch: array<U32>,
                        options: PayloadOptions) returns (res: PayloadResult)
    requires |file| <= SPAN_MAX && out.Length <= SPAN_MAX && |blocks| <= U32_MAX
    modifies out, scratch
    ensures var o := Extraction(file, blocks, seedIndex, scratch.Length, options);
            res == ResultFor(o, out.Length) && out[..] == Overlay(old(out[..]), o.copied)
  {
    P.OverlayNothing(out[..]);
    hide Overlay;
    if seedIndex >= |blocks| {
      return PayloadResult(Malformed, 0, 0);
    }
    var seed := blocks[seedIndex];
    if IsSingle(seed) {
      res := ExtractSingleBlock(file, seed, out, options);
      return;
    }
    var failure, count := CollectMembers(blocks, seed, scratch, options.maxParts);
    if failure.Some? {
      return failure.value;
    }
    if count == 0 {
      return PayloadResult(Malformed, 0, 0);
    }
    res := ExtractStream(file, blocks, seed, scratch, count, out, options, Members(seed, blocks, |blocks|));
  }
}
