/**
 * What the extraction of a (possibly split) payload yields: which blocks belong to the stream, in
 * which order, and what is joined. Written without an output buffer and without scratch space.
 */
module PayloadSpec {
  import opened Bytes
  import opened Blocks
  import opened PartSort

  datatype PayloadStatus = Ok | OutputTruncated | Unsupported | Malformed | LimitExceeded

  datatype PayloadResult = PayloadResult(status: PayloadStatus, needed: U64, written: U64)

  /** A limit of 0 output bytes means no limit. */
  datatype PayloadOptions = PayloadOptions(decompress: bool, maxParts: U32, maxOutputBytes: U64)

  /**
   * The outcome of an extraction for an output buffer of any size: the bytes handed to the buffer,
   * front to back, and whether they are reported as written.
   */
  datatype Outcome = Outcome(status: PayloadStatus, needed: U64, copied: seq<Byte>, reported: bool)

  function Failure(status: PayloadStatus, needed: U64): Outcome { Outcome(status, needed, [], false) }

  function Stream(bytes: seq<Byte>): Outcome
    requires |bytes| <= U64_MAX
  {
    Outcome(Ok, |bytes|, bytes, true)
  }

  /** The result reported for a buffer of `capacity` bytes. */
  function ResultFor(o: Outcome, capacity: nat): PayloadResult
    requires capacity <= U64_MAX
  {
    var written := if o.reported then Min(|o.copied|, capacity) else 0;
    PayloadResult(if o.status == Ok && written < o.needed then OutputTruncated else o.status, o.needed, written)
  }

  /** A buffer after `copied` was written to its front, as far as it fits. */
  function Overlay(buffer: seq<Byte>, copied: seq<Byte>): (r: seq<Byte>)
    ensures |r| == |buffer|
  {
    if |copied| <= |buffer| then copied + buffer[|copied|..] else copied[..|buffer|]
  }

  predicate OverLimit(size: nat, options: PayloadOptions) {
    options.maxOutputBytes != 0 && size > options.maxOutputBytes
  }

  // ----- a single block -------------------------------------------------------------------------

  /** GIF sub-blocks from position `p` on, after `done` (section 15 of GIF89a). */
  function GifFrom(src: seq<Byte>, p: nat, done: seq<Byte>, options: PayloadOptions): Outcome
    requires p <= |src| <= SPAN_MAX && |done| <= p
    decreases |src| - p
  {
    if p == |src| || src[p] == 0 then Stream(done)
    else
      var size := src[p] as nat;
      if size > |src| - (p + 1) then Outcome(Malformed, 0, done, false)
      else if OverLimit(|done| + size, options) then Outcome(LimitExceeded, |done| + size, done, true)
      else GifFrom(src, p + 1 + size, done + src[p + 1..p + 1 + size], options)
  }

  /** Compressed data is unsupported in a build without the decompression libraries. */
  function SingleBlock(file: seq<Byte>, b: Block, options: PayloadOptions): Outcome
    requires |file| <= SPAN_MAX
  {
    if !InFile(file, b) then Failure(Malformed, 0)
    else if b.chunking == GifSubBlocks then GifFrom(BlockBytes(file, b), 0, [], options)
    else if options.decompress && b.compression != Uncompressed then Failure(Unsupported, 0)
    else if OverLimit(b.dataSize, options) then Failure(LimitExceeded, b.dataSize)
    else Stream(BlockBytes(file, b))
  }

  // ----- which blocks belong to a stream --------------------------------------------------------

  predicate MatchesIcc(seed: Block, b: Block) {
    && b.format == seed.format && b.kind == seed.kind && b.chunking == JpegApp2SeqTotal
    && (seed.partCount == 0 || b.partCount == 0 || b.partCount == seed.partCount)
  }

  predicate MatchesXmpExtended(seed: Block, b: Block) {
    && b.format == seed.format && b.kind == seed.kind && b.chunking == JpegXmpExtendedGuidOffset
    && b.group == seed.group
    && (seed.logicalSize == 0 || b.logicalSize == 0 || b.logicalSize == seed.logicalSize)
  }

  predicate MatchesMultipart(seed: Block, b: Block) {
    && b.format == seed.format && b.kind == seed.kind && b.group == seed.group && b.id == seed.id
    && (seed.partCount == 0 || b.partCount == 0 || b.partCount == seed.partCount)
  }

  predicate SameStream(seed: Block, b: Block) {
    if seed.chunking == JpegApp2SeqTotal then MatchesIcc(seed, b)
    else if seed.chunking == JpegXmpExtendedGuidOffset then MatchesXmpExtended(seed, b)
    else seed.partCount > 1 && MatchesMultipart(seed, b)
  }

  predicate IsSingle(seed: Block) {
    seed.chunking == GifSubBlocks
    || (seed.partCount <= 1 && seed.chunking != JpegApp2SeqTotal && seed.chunking != JpegXmpExtendedGuidOffset)
  }

  /** The numbers of the blocks of the stream of `seed` among the first `n`, in ascending order. */
  function Members(seed: Block, blocks: seq<Block>, n: nat): (r: seq<U32>)
    requires n <= |blocks| <= U32_MAX
    ensures |r| <= n
    ensures forall i :: 0 <= i < |r| ==> r[i] < n && SameStream(seed, blocks[r[i]])
  {
    if n == 0 then []
    else
      var before := Members(seed, blocks, n - 1);
      if SameStream(seed, blocks[n - 1]) then before + [n - 1] else before
  }

  // ----- joining --------------------------------------------------------------------------------

  predicate ValidParts(parts: seq<U32>, blocks: seq<Block>) {
    forall i :: 0 <= i < |parts| ==> parts[i] < |blocks|
  }

  /** The total size of the first `n` parts. */
  function TotalSize(blocks: seq<Block>, parts: seq<U32>, n: nat): nat
    requires n <= |parts| && ValidParts(parts, blocks)
  {
    if n == 0 then 0 else TotalSize(blocks, parts, n - 1) + blocks[parts[n - 1]].dataSize
  }

  predicate AllInFile(file: seq<Byte>, blocks: seq<Block>, parts: seq<U32>)
    requires ValidParts(parts, blocks)
  {
    forall i :: 0 <= i < |parts| ==> InFile(file, blocks[parts[i]])
  }

  /** The first `n` parts, one after another. */
  function Joined(file: seq<Byte>, blocks: seq<Block>, parts: seq<U32>, n: nat): (r: seq<Byte>)
    requires n <= |parts| && ValidParts(parts, blocks) && AllInFile(file, blocks, parts[..n])
    ensures |r| == TotalSize(blocks, parts, n)
  {
    if n == 0 then []
    else
      assert parts[..n][..n - 1] == parts[..n - 1];
      assert InFile(file, blocks[parts[..n][n - 1]]);
      Joined(file, blocks, parts, n - 1) + BlockBytes(file, blocks[parts[n - 1]])
  }

  /** Checks the parts in order, adding up sizes; the first objection counts. */
  function ConcatObjection(file: seq<Byte>, blocks: seq<Block>, parts: seq<U32>, n: nat,
                           options: PayloadOptions): (r: Option<Outcome>)
    requires n <= |parts| && ValidParts(parts, blocks)
    ensures r.Some? ==> r.value.status == Malformed || r.value.status == LimitExceeded
  {
    if n == 0 then None
    else
      var earlier := ConcatObjection(file, blocks, parts, n - 1, options);
      var total := TotalSize(blocks, parts, n);
      if earlier.Some? then earlier
      else if !InFile(file, blocks[parts[n - 1]]) || total > U64_MAX then Some(Failure(Malformed, 0))
      else if OverLimit(total, options) then Some(Failure(LimitExceeded, total))
      else None
  }

  lemma {:induction false} NoObjection(file: seq<Byte>, blocks: seq<Block>, parts: seq<U32>, n: nat,
                                       options: PayloadOptions)
    requires n <= |parts| && ValidParts(parts, blocks)
    requires ConcatObjection(file, blocks, parts, n, options).None?
    ensures AllInFile(file, blocks, parts[..n])
    ensures TotalSize(blocks, parts, n) <= U64_MAX && (n > 0 ==> !OverLimit(TotalSize(blocks, parts, n), options))
  {
    if n > 0 {
      NoObjection(file, blocks, parts, n - 1, options);
      assert parts[..n] == parts[..n - 1] + [parts[n - 1]];
    }
  }

  function ConcatParts(file: seq<Byte>, blocks: seq<Block>, parts: seq<U32>, options: PayloadOptions): Outcome
    requires ValidParts(parts, blocks)
  {
    var objection := ConcatObjection(file, blocks, parts, |parts|, options);
    if objection.Some? then objection.value
    else
      NoObjection(file, blocks, parts, |parts|, options);
      assert parts[..|parts|] == parts;
      Stream(Joined(file, blocks, parts, |parts|))
  }

  /** Part `i` continues the stream where the parts before it end. */
  predicate Continues(file: seq<Byte>, blocks: seq<Block>, parts: seq<U32>, i: nat, logicalSize: nat)
    requires i < |parts| && ValidParts(parts, blocks)
  {
    var b := blocks[parts[i]];
    InFile(file, b) && b.logicalOffset == TotalSize(blocks, parts, i)
        && TotalSize(blocks, parts, i) + b.dataSize <= logicalSize
  }

  /** How many parts, from the first, continue the stream. */
  function Contiguous(file: seq<Byte>, blocks: seq<Block>, parts: seq<U32>, n: nat, logicalSize: nat): (r: nat)
    requires n <= |parts| && ValidParts(parts, blocks)
    ensures r <= n && AllInFile(file, blocks, parts[..r])
    ensures forall i :: 0 <= i < r ==> Continues(file, blocks, parts, i, logicalSize)
    ensures r < n ==> !Continues(file, blocks, parts, r, logicalSize)
    ensures r > 0 ==> TotalSize(blocks, parts, r) <= logicalSize
  {
    if n == 0 then 0
    else
      var r := Contiguous(file, blocks, parts, n - 1, logicalSize);
      if r == n - 1 && Continues(file, blocks, parts, n - 1, logicalSize) then
        assert parts[..n] == parts[..n - 1] + [parts[n - 1]];
        n
      else r
  }

  /** Parts with logical offsets must tile `[0, logicalSize)`; what was copied before a gap stays copied. */
  function OffsetParts(file: seq<Byte>, blocks: seq<Block>, parts: seq<U32>, logicalSize: U64,
                       options: PayloadOptions): Outcome
    requires ValidParts(parts, blocks)
  {
    if logicalSize == 0 then Failure(Malformed, 0)
    else if OverLimit(logicalSize, options) then Failure(LimitExceeded, logicalSize)
    else
      var n := Contiguous(file, blocks, parts, |parts|, logicalSize);
      var copied := Joined(file, blocks, parts, n);
      if n == |parts| && |copied| == logicalSize then Stream(copied) else Outcome(Malformed, 0, copied, false)
  }

  // ----- the whole extraction ---------------------------------------------------------------------

  function PartKeys(blocks: seq<Block>): (keys: seq<nat>)
    ensures |keys| == |blocks| && forall i :: 0 <= i < |keys| ==> keys[i] == blocks[i].partIndex
  {
    seq(|blocks|, i requires 0 <= i < |blocks| => blocks[i].partIndex)
  }

  function OffsetKeys(blocks: seq<Block>): (keys: seq<nat>)
    ensures |keys| == |blocks| && forall i :: 0 <= i < |keys| ==> keys[i] == blocks[i].logicalOffset
  {
    seq(|blocks|, i requires 0 <= i < |blocks| => blocks[i].logicalOffset)
  }

  /** The end of the part that reaches furthest, unless some end does not fit 64 bits. */
  function FurthestEnd(blocks: seq<Block>, parts: seq<U32>, n: nat): Option<U64>
    requires n <= |parts| && ValidParts(parts, blocks)
  {
    if n == 0 then Some(0)
    else
      var b := blocks[parts[n - 1]];
      match FurthestEnd(blocks, parts, n - 1)
      case None => None
      case Some(far) =>
        if b.logicalOffset + b.dataSize > U64_MAX then None else Some(Max(far, b.logicalOffset + b.dataSize))
  }

  /** The last nonzero declared size of the stream, or 0. */
  function DeclaredSize(blocks: seq<Block>, parts: seq<U32>, n: nat): U64
    requires n <= |parts| && ValidParts(parts, blocks)
  {
    if n == 0 then 0
    else if blocks[parts[n - 1]].logicalSize != 0 then blocks[parts[n - 1]].logicalSize
    else DeclaredSize(blocks, parts, n - 1)
  }

  predicate AnyOffsets(blocks: seq<Block>, parts: seq<U32>)
    requires ValidParts(parts, blocks)
  {
    exists i :: 0 <= i < |parts| && blocks[parts[i]].logicalOffset != 0
  }

  /** Parts are numbered 0, 1, 2, ... */
  predicate Numbered(blocks: seq<Block>, parts: seq<U32>)
    requires ValidParts(parts, blocks)
  {
    forall i :: 0 <= i < |parts| ==> blocks[parts[i]].partIndex == i
  }

  function IndexStream(file: seq<Byte>, blocks: seq<Block>, seed: Block, parts: seq<U32>,
                       options: PayloadOptions): Outcome
    requires ValidParts(parts, blocks) && |parts| <= U32_MAX
  {
    var expected := if seed.partCount != 0 then seed.partCount else |parts|;
    if expected == 0 || expected > options.maxParts then Failure(LimitExceeded, 0)
    else if |parts| != expected || !Numbered(blocks, parts) then Failure(Malformed, 0)
    else ConcatParts(file, blocks, parts, options)
  }

  function XmpStream(file: seq<Byte>, blocks: seq<Block>, seed: Block, parts: seq<U32>,
                     options: PayloadOptions): Outcome
    requires ValidParts(parts, blocks)
  {
    if seed.logicalSize != 0 then OffsetParts(file, blocks, parts, seed.logicalSize, options)
    else match FurthestEnd(blocks, parts, |parts|)
      case None => Failure(Malformed, 0)
      case Some(end) => OffsetParts(file, blocks, parts, end, options)
  }

  function OffsetStream(file: seq<Byte>, blocks: seq<Block>, parts: seq<U32>, options: PayloadOptions): Outcome
    requires ValidParts(parts, blocks)
  {
    match FurthestEnd(blocks, parts, |parts|)
    case None => Failure(Malformed, 0)
    case Some(end) =>
      var declared := DeclaredSize(blocks, parts, |parts|);
      OffsetParts(file, blocks, parts, if declared != 0 then declared else end, options)
  }

  /** The stream of `seed` from its members. */
  function StreamOf(file: seq<Byte>, blocks: seq<Block>, seed: Block, members: seq<U32>,
                    options: PayloadOptions): Outcome
    requires ValidParts(members, blocks) && |members| <= U32_MAX
  {
    if seed.chunking == JpegApp2SeqTotal then
      IndexStream(file, blocks, seed, SortByKey(members, PartKeys(blocks)), options)
    else if seed.chunking == JpegXmpExtendedGuidOffset then
      XmpStream(file, blocks, seed, SortByKey(members, OffsetKeys(blocks)), options)
    else
      var parts := SortByKey(members, PartKeys(blocks));
      if AnyOffsets(blocks, parts) then OffsetStream(file, blocks, SortByKey(parts, OffsetKeys(blocks)), options)
      else IndexStream(file, blocks, seed, parts, options)
  }

  function Extraction(file: seq<Byte>, blocks: seq<Block>, seedIndex: U32, scratch: nat,
                      options: PayloadOptions): Outcome
    requires |file| <= SPAN_MAX && |blocks| <= U32_MAX
  {
    if seedIndex >= |blocks| then Failure(Malformed, 0)
    else if IsSingle(blocks[seedIndex]) then SingleBlock(file, blocks[seedIndex], options)
    else
      var seed := blocks[seedIndex];
      var members := Members(seed, blocks, |blocks|);
      if |members| > options.maxParts && options.maxParts <= scratch then Failure(LimitExceeded, options.maxParts)
      else if |members| > scratch then Failure(LimitExceeded, scratch + 1)
      else if members == [] then Failure(Malformed, 0)
      else StreamOf(file, blocks, seed, members, options)
  }
}
