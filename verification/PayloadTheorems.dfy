/** What a successful extraction has put together. */
module PayloadTheorems {
  import opened Bytes
  import opened Blocks
  import opened PartSort
  import opened PayloadSpec
  import opened Payload

  // ----- sizes ------------------------------------------------------------------------------------

  /** A successful outcome reports all it copied; truncation is a matter of the buffer only. */
  ghost predicate Whole(o: Outcome) {
    o.status != OutputTruncated && (o.status == Ok ==> o.reported && |o.copied| == o.needed)
  }

  lemma {:induction false} GifIsWhole(src: seq<Byte>, p: nat, done: seq<Byte>, options: PayloadOptions)
    requires p <= |src| <= SPAN_MAX && |done| <= p
    ensures Whole(GifFrom(src, p, done, options))
    decreases |src| - p
  {
    if p < |src| && src[p] != 0 {
      var size := src[p] as nat;
      if size <= |src| - (p + 1) && !OverLimit(|done| + size, options) {
        GifIsWhole(src, p + 1 + size, done + src[p + 1..p + 1 + size], options);
      }
    }
  }

  lemma PartsAreWhole(file: seq<Byte>, blocks: seq<Block>, seed: Block, parts: seq<U32>, options: PayloadOptions)
    requires ValidParts(parts, blocks) && |parts| <= U32_MAX
    ensures Whole(IndexStream(file, blocks, seed, parts, options))
    ensures Whole(XmpStream(file, blocks, seed, parts, options))
    ensures Whole(OffsetStream(file, blocks, parts, options))
  {
    hide Joined;
    hide TotalSize;
    hide FurthestEnd;
    hide DeclaredSize;
    hide Contiguous;
  }

  lemma StreamIsWhole(file: seq<Byte>, blocks: seq<Block>, seed: Block, members: seq<U32>, options: PayloadOptions)
    requires ValidParts(members, blocks) && |members| <= U32_MAX
    ensures Whole(StreamOf(file, blocks, seed, members, options))
  {
    hide IndexStream;
    hide XmpStream;
    hide OffsetStream;
    var parts := SortByKey(members, PartKeys(blocks));
    PartsAreWhole(file, blocks, seed, parts, options);
    PartsAreWhole(file, blocks, seed, SortByKey(members, OffsetKeys(blocks)), options);
    PartsAreWhole(file, blocks, seed, SortByKey(parts, OffsetKeys(blocks)), options);
  }

  lemma ExtractionIsWhole(file: seq<Byte>, blocks: seq<Block>, seedIndex: U32, scratch: nat, options: PayloadOptions)
    requires |file| <= SPAN_MAX && |blocks| <= U32_MAX
    ensures Whole(Extraction(file, blocks, seedIndex, scratch, options))
  {
    hide StreamOf;
    if seedIndex < |blocks| {
      StreamIsWhole(file, blocks, blocks[seedIndex], Members(blocks[seedIndex], blocks, |blocks|), options);
      if InFile(file, blocks[seedIndex]) {
        GifIsWhole(BlockBytes(file, blocks[seedIndex]), 0, [], options);
      }
    }
  }

  /**
   * On success or truncation the result reports the size of the stream and as many written bytes as
   * fit, and the buffer holds that prefix of the stream and is otherwise untouched.
   */
  lemma SuccessIsPrefix(o: Outcome, buffer: seq<Byte>)
    requires Whole(o) && |buffer| <= SPAN_MAX
    ensures var res := ResultFor(o, |buffer|);
            (res.status == Ok || res.status == OutputTruncated) ==>
              && o.status == Ok && res.needed == |o.copied| && res.written == Min(|buffer|, res.needed)
              && (res.status == Ok <==> res.written == res.needed)
              && Overlay(buffer, o.copied) == o.copied[..res.written] + buffer[res.written..]
  {
    assert |o.copied| > |buffer| ==> buffer[|buffer|..] == [];
  }

  // ----- streams with part numbers -------------------------------------------------------------------

  /** The members carry the numbers 0, 1, ... once each, and the pieces with those numbers. */
  ghost predicate CarryPieces(file: seq<Byte>, blocks: seq<Block>, members: seq<U32>, pieces: seq<seq<Byte>>)
    requires ValidParts(members, blocks)
  {
    && |members| == |pieces|
    && (forall i, j :: 0 <= i < j < |members| ==> blocks[members[i]].partIndex != blocks[members[j]].partIndex)
    && (forall i :: 0 <= i < |members| ==> CarriesPiece(file, blocks[members[i]], pieces))
  }

  ghost predicate CarriesPiece(file: seq<Byte>, b: Block, pieces: seq<seq<Byte>>) {
    b.partIndex < |pieces| && InFile(file, b) && BlockBytes(file, b) == pieces[b.partIndex]
  }

  /** Distinct numbers below `n` in ascending order, `n` of them, are 0, 1, ..., n - 1. */
  lemma {:induction false} AscendingFromBelow(s: seq<nat>, i: nat)
    requires i < |s| && forall a, b :: 0 <= a < b < |s| ==> s[a] < s[b]
    ensures s[i] >= i
  {
    if i > 0 {
      AscendingFromBelow(s, i - 1);
    }
  }

  lemma {:induction false} AscendingFromAbove(s: seq<nat>, i: nat, n: nat)
    requires i < |s| <= n && forall a, b :: 0 <= a < b < |s| ==> s[a] < s[b]
    requires forall a :: 0 <= a < |s| ==> s[a] < n
    ensures s[i] + (|s| - i) <= n
    decreases |s| - i
  {
    if i + 1 < |s| {
      AscendingFromAbove(s, i + 1, n);
    }
  }

  /** `CarryPieces` does not depend on the order of the members. */
  lemma CarryAnyOrder(file: seq<Byte>, blocks: seq<Block>, a: seq<U32>, b: seq<U32>, pieces: seq<seq<Byte>>)
    requires ValidParts(a, blocks) && ValidParts(b, blocks) && multiset(a) == multiset(b)
    requires CarryPieces(file, blocks, a, pieces)
    ensures CarryPieces(file, blocks, b, pieces)
  {
    assert |a| == |multiset(a)| && |b| == |multiset(b)|;
    forall i | 0 <= i < |b|
      ensures CarriesPiece(file, blocks[b[i]], pieces)
    {
      assert b[i] in multiset(a);
      var k :| 0 <= k < |a| && a[k] == b[i];
    }
    forall i, j | 0 <= i < j < |b|
      ensures blocks[b[i]].partIndex != blocks[b[j]].partIndex
    {
      SamePartSameMember(file, blocks, a, b, pieces, i, j);
    }
  }

  lemma SamePartSameMember(file: seq<Byte>, blocks: seq<Block>, a: seq<U32>, b: seq<U32>, pieces: seq<seq<Byte>>,
                           i: nat, j: nat)
    requires ValidParts(a, blocks) && ValidParts(b, blocks) && multiset(a) == multiset(b) && i < j < |b|
    requires CarryPieces(file, blocks, a, pieces)
    ensures blocks[b[i]].partIndex != blocks[b[j]].partIndex
  {
    assert b[i] in multiset(a) && b[j] in multiset(a);
    var k :| 0 <= k < |a| && a[k] == b[i];
    var l :| 0 <= l < |a| && a[l] == b[j];
    if b[i] == b[j] {
      TwiceInSeq(b, i, j);
      OnceInSeq(a, k);
      assert false;
    }
  }

  lemma TwiceInSeq(s: seq<U32>, i: nat, j: nat)
    requires i < j < |s| && s[i] == s[j]
    ensures multiset(s)[s[i]] >= 2
  {
    assert s == s[..j] + [s[j]] + s[j + 1..];
    assert s[i] in s[..j];
  }

  lemma {:induction false} NotInSeq(s: seq<U32>, x: U32)
    requires x !in s
    ensures multiset(s)[x] == 0
  {
  }

  lemma OnceInSeq(s: seq<U32>, k: nat)
    requires k < |s| && forall i, j :: 0 <= i < j < |s| ==> s[i] != s[j]
    ensures multiset(s)[s[k]] == 1
  {
    assert s == s[..k] + [s[k]] + s[k + 1..];
    NotInSeq(s[..k], s[k]);
    NotInSeq(s[k + 1..], s[k]);
  }

  lemma AllInFilePrefix(file: seq<Byte>, blocks: seq<Block>, parts: seq<U32>, m: nat, n: nat)
    requires m <= n <= |parts| && ValidParts(parts, blocks) && AllInFile(file, blocks, parts[..n])
    ensures AllInFile(file, blocks, parts[..m])
  {
    var longer, shorter := parts[..n], parts[..m];
    forall i | 0 <= i < |shorter| ensures InFile(file, blocks[shorter[i]]) {
      assert shorter[i] == longer[i];
    }
  }

  lemma {:induction false} JoinedIsConcat(file: seq<Byte>, blocks: seq<Block>, parts: seq<U32>, pieces: seq<seq<Byte>>,
                                          n: nat)
    requires n <= |parts| <= |pieces| && ValidParts(parts, blocks) && AllInFile(file, blocks, parts[..n])
    requires forall i :: 0 <= i < n ==>
               InFile(file, blocks[parts[i]]) && BlockBytes(file, blocks[parts[i]]) == pieces[i]
    ensures Joined(file, blocks, parts, n) == Concat(pieces[..n])
  {
    if n > 0 {
      AllInFilePrefix(file, blocks, parts, n - 1, n);
      JoinedIsConcat(file, blocks, parts, pieces, n - 1);
      assert pieces[..n][..n - 1] == pieces[..n - 1];
    }
  }

  /** Members that carry pieces 0 .. n-1 come out of the sort in that order. */
  lemma CarriedPartsSort(file: seq<Byte>, blocks: seq<Block>, members: seq<U32>, pieces: seq<seq<Byte>>)
    requires ValidParts(members, blocks) && CarryPieces(file, blocks, members, pieces)
    ensures var parts := SortByKey(members, PartKeys(blocks));
            Numbered(blocks, parts) && CarryPieces(file, blocks, parts, pieces)
  {
    var keys := PartKeys(blocks);
    var parts := SortByKey(members, keys);
    SortByKeyIsStableSort(members, keys);
    CarryAnyOrder(file, blocks, members, parts, pieces);
    hide SortByKey;
    AscendingCarryNumbered(file, blocks, parts, pieces);
  }

  /** Parts in ascending order that carry all pieces are numbered 0, 1, ... */
  lemma AscendingCarryNumbered(file: seq<Byte>, blocks: seq<Block>, parts: seq<U32>, pieces: seq<seq<Byte>>)
    requires ValidParts(parts, blocks) && CarryPieces(file, blocks, parts, pieces)
             && SortedByKey(parts, PartKeys(blocks))
    ensures Numbered(blocks, parts)
  {
    var keys := PartKeys(blocks);
    var numbers := seq(|parts|, i requires 0 <= i < |parts| => blocks[parts[i]].partIndex);
    forall a, b | 0 <= a < b < |numbers|
      ensures numbers[a] < numbers[b]
    {
      assert keys[parts[a]] <= keys[parts[b]];
    }
    forall a | 0 <= a < |numbers| ensures numbers[a] < |pieces| {
      assert CarriesPiece(file, blocks[parts[a]], pieces);
    }
    assert |numbers| == |pieces|;
    hide CarryPieces;
    hide SortedByKey;
    forall i | 0 <= i < |parts|
      ensures blocks[parts[i]].partIndex == i
    {
      AscendingFromBelow(numbers, i);
      AscendingFromAbove(numbers, i, |pieces|);
    }
  }

  /** The guards of an index stream, apart from the numbering: the counts and the limits. */
  predicate IndexGuards(seed: Block, count: nat, size: nat, options: PayloadOptions) {
    && 0 < count <= options.maxParts && (seed.partCount == 0 || seed.partCount == count)
    && size <= U64_MAX && !OverLimit(size, options)
  }

  lemma {:induction false} NoObjectionTo(file: seq<Byte>, blocks: seq<Block>, parts: seq<U32>, n: nat,
                                         options: PayloadOptions)
    requires n <= |parts| && ValidParts(parts, blocks) && AllInFile(file, blocks, parts[..n])
    requires TotalSize(blocks, parts, n) <= U64_MAX && !OverLimit(TotalSize(blocks, parts, n), options)
    ensures ConcatObjection(file, blocks, parts, n, options).None?
  {
    if n > 0 {
      AllInFilePrefix(file, blocks, parts, n - 1, n);
      assert parts[..n][n - 1] == parts[n - 1];
      NoObjectionTo(file, blocks, parts, n - 1, options);
    }
  }

  /** Any members that carry pieces 0 .. n-1, in any order, are joined to exactly those pieces. */
  lemma IndexStreamJoins(file: seq<Byte>, blocks: seq<Block>, seed: Block, members: seq<U32>, pieces: seq<seq<Byte>>,
                         options: PayloadOptions)
    requires ValidParts(members, blocks) && |members| <= U32_MAX
    requires CarryPieces(file, blocks, members, pieces) && IndexGuards(seed, |pieces|, |Concat(pieces)|, options)
    ensures IndexStream(file, blocks, seed, SortByKey(members, PartKeys(blocks)), options) == Stream(Concat(pieces))
  {
    var parts := SortByKey(members, PartKeys(blocks));
    CarriedPartsSort(file, blocks, members, pieces);
    var n := |parts|;
    forall i | 0 <= i < n
      ensures InFile(file, blocks[parts[i]]) && BlockBytes(file, blocks[parts[i]]) == pieces[i]
    {
      assert CarriesPiece(file, blocks[parts[i]], pieces);
    }
    assert parts[..n] == parts && pieces[..n] == pieces;
    JoinedIsConcat(file, blocks, parts, pieces, n);
    NoObjectionTo(file, blocks, parts, n, options);
  }

  /** The pieces of a numbered stream, by part number. */
  function Pieces(file: seq<Byte>, blocks: seq<Block>, parts: seq<U32>): (r: seq<seq<Byte>>)
    requires ValidParts(parts, blocks) && AllInFile(file, blocks, parts)
    ensures |r| == |parts|
  {
    seq(|parts|, i requires 0 <= i < |parts| => BlockBytes(file, blocks[parts[i]]))
  }

  lemma NumberedCarry(file: seq<Byte>, blocks: seq<Block>, parts: seq<U32>)
    requires ValidParts(parts, blocks) && AllInFile(file, blocks, parts) && Numbered(blocks, parts)
    ensures CarryPieces(file, blocks, parts, Pieces(file, blocks, parts))
  {
  }

  /** Conversely, an index stream that comes out Ok had members numbered 0 .. n-1, and is their pieces. */
  lemma IndexStreamOnlyJoins(file: seq<Byte>, blocks: seq<Block>, seed: Block, members: seq<U32>,
                             options: PayloadOptions)
    returns (pieces: seq<seq<Byte>>)
    requires ValidParts(members, blocks) && |members| <= U32_MAX
    requires IndexStream(file, blocks, seed, SortByKey(members, PartKeys(blocks)), options).status == Ok
    ensures CarryPieces(file, blocks, members, pieces) && IndexGuards(seed, |pieces|, |Concat(pieces)|, options)
    ensures IndexStream(file, blocks, seed, SortByKey(members, PartKeys(blocks)), options) == Stream(Concat(pieces))
  {
    hide CarryPieces;
    hide ConcatObjection;
    hide SortByKey;
    var parts := SortByKey(members, PartKeys(blocks));
    var n := |parts|;
    SortByKeyIsStableSort(members, PartKeys(blocks));
    NoObjection(file, blocks, parts, n, options);
    assert parts[..n] == parts;
    pieces := Pieces(file, blocks, parts);
    assert pieces[..n] == pieces;
    JoinedIsConcat(file, blocks, parts, pieces, n);
    NumberedCarry(file, blocks, parts);
    CarryAnyOrder(file, blocks, parts, members, pieces);
  }

  // ----- streams with logical offsets ------------------------------------------------------------------

  lemma {:induction false} JoinedSlice(file: seq<Byte>, blocks: seq<Block>, parts: seq<U32>, i: nat, n: nat)
    requires i < n <= |parts| && ValidParts(parts, blocks) && AllInFile(file, blocks, parts)
    ensures AllInFile(file, blocks, parts[..n]) && InFile(file, blocks[parts[i]])
    ensures var start := TotalSize(blocks, parts, i);
            && start + blocks[parts[i]].dataSize <= |Joined(file, blocks, parts, n)|
            && Joined(file, blocks, parts, n)[start..start + blocks[parts[i]].dataSize]
              == BlockBytes(file, blocks[parts[i]])
  {
    if i + 1 < n {
      JoinedSlice(file, blocks, parts, i, n - 1);
    }
  }

  /** The member lies in the stream at its own logical offset. */
  ghost predicate Placed(file: seq<Byte>, b: Block, stream: seq<Byte>) {
    && InFile(file, b) && b.logicalOffset + b.dataSize <= |stream|
    && stream[b.logicalOffset..b.logicalOffset + b.dataSize] == BlockBytes(file, b)
  }

  /**
   * An offset stream that comes out Ok tiles [0, logicalSize): every part lies at its own logical
   * offset, each part starts where the one before it ends, and the sizes add up.
   */
  lemma OffsetStreamTiles(file: seq<Byte>, blocks: seq<Block>, parts: seq<U32>, logicalSize: U64,
                          options: PayloadOptions)
    requires ValidParts(parts, blocks)
    ensures var o := OffsetParts(file, blocks, parts, logicalSize, options);
            o.status == Ok ==>
              && |o.copied| == logicalSize == TotalSize(blocks, parts, |parts|)
              && (forall i :: 0 <= i < |parts| ==> blocks[parts[i]].logicalOffset == TotalSize(blocks, parts, i))
              && (forall i :: 0 <= i < |parts| ==> Placed(file, blocks[parts[i]], o.copied))
  {
    var n := |parts|;
    if OffsetParts(file, blocks, parts, logicalSize, options).status == Ok {
      assert parts[..n] == parts;
      forall i | 0 <= i < n
        ensures blocks[parts[i]].logicalOffset == TotalSize(blocks, parts, i)
        ensures Placed(file, blocks[parts[i]], Joined(file, blocks, parts, n))
      {
        assert Continues(file, blocks, parts, i, logicalSize);
        JoinedSlice(file, blocks, parts, i, n);
      }
    }
  }
}
