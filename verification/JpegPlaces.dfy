/** Where the blocks of a written JPEG file are in the list that a scan returns. */
module JpegPlaces {
  import opened Bytes
  import opened Blocks
  import opened BlockSinks
  import opened JpegSegments
  import opened JpegScan
  import opened JumbfGroups
  import opened JumbfRoundTrip

  /** How many blocks are found before segment `i`. */
  function Place(found: seq<Option<Block>>, i: nat): nat
    requires i <= |found|
  {
    |Somes(found[..i])|
  }

  lemma SomesMore(found: seq<Option<Block>>, i: nat)
    requires i < |found|
    ensures Somes(found[..i + 1]) == if found[i].Some? then Somes(found[..i]) + [found[i].value] else Somes(found[..i])
  {
    assert found[..i + 1][..i] == found[..i];
  }

  lemma {:induction false} SomesGrow(found: seq<Option<Block>>, i: nat, n: nat)
    requires i <= n <= |found|
    ensures Somes(found[..i]) <= Somes(found[..n])
  {
    if i < n {
      SomesGrow(found, i, n - 1);
      SomesMore(found, n - 1);
    }
  }

  /** A block that is found is at its place, and later ones are behind it. */
  lemma AtPlace(found: seq<Option<Block>>, i: nat)
    requires i < |found| && found[i].Some?
    ensures Place(found, i) < |Somes(found)| && Somes(found)[Place(found, i)] == found[i].value
    ensures forall j :: i < j < |found| ==> Place(found, i) < Place(found, j)
  {
    SomesMore(found, i);
    SomesGrow(found, i + 1, |found|);
    assert found[..|found|] == found;
    forall j | i < j < |found| ensures Place(found, i) < Place(found, j) {
      SomesGrow(found, i + 1, j);
    }
  }

  /** Every block of the list is that of some segment. */
  lemma {:induction false} PlaceOf(found: seq<Option<Block>>, n: nat, j: nat) returns (i: nat)
    requires n <= |found| && j < |Somes(found[..n])|
    ensures i < n && found[i].Some? && Place(found, i) == j
  {
    SomesMore(found, n - 1);
    if j < |Somes(found[..n - 1])| {
      i := PlaceOf(found, n - 1, j);
    } else {
      i := n - 1;
    }
  }

  /** After normalisation a block is what was found; only JUMBF parts are renumbered. */
  ghost predicate Kept(b: Block, was: Block) { if IsApp11(was) then IsApp11(b) else b == was }

  /** What a scan without objections has found in the segments `segments`. */
  ghost predicate FoundIn(file: seq<Byte>, segments: seq<Segment>, found: seq<Option<Block>>, blocks: seq<Block>) {
    && |file| <= SPAN_MAX && |found| == |segments| && |blocks| == |Somes(found)| <= U32_MAX
    && (forall i :: 0 <= i < |segments| ==> InBounds(file, segments[i]) && found[i] == Classify(file, segments[i]))
    && (forall j :: 0 <= j < |blocks| ==> Kept(blocks[j], Somes(found)[j]))
  }

  lemma NormalIsKept(bs: seq<Block>)
    requires |bs| <= U32_MAX && Sized(bs)
    ensures forall j :: 0 <= j < |bs| ==> Kept(Normalized(bs)[j], bs[j])
  {
    hide NormalBlock;
    forall j | 0 <= j < |bs| ensures Kept(Normalized(bs)[j], bs[j]) {
      if IsApp11(bs[j]) {
        NormalBlockMarks(bs, j);
      } else {
        OthersStay(bs, j);
      }
    }
  }

  lemma OthersStay(bs: seq<Block>, j: nat)
    requires j < |bs| <= U32_MAX && Sized(bs) && !IsApp11(bs[j])
    ensures NormalBlock(bs, j) == bs[j]
  {
  }

  /** A scan of written segments, with room for all blocks, has no objection and finds them. */
  lemma ScanOfFrames(frames: seq<Frame>, tail: seq<Byte>, capacity: U32)
    returns (segments: seq<Segment>, found: seq<Option<Block>>)
    requires ProperTail(tail) && |WriteFile(frames, tail)| <= SPAN_MAX
    requires forall i :: 0 <= i < |frames| ==> ProperFrame(frames[i])
    requires Scan(WriteFile(frames, tail), capacity).needed <= capacity
    ensures var file := WriteFile(frames, tail);
            && AreFrames(file, segments, frames) && Scan(file, capacity).status == Ok
            && FoundIn(file, segments, found, Scan(file, capacity).blocks)
  {
    var file := WriteFile(frames, tail);
    assert file[2..] == EncodeAll(frames) + tail;
    WalkFindsFrames(file, 2, frames, tail);
    segments := Walk(file, 2).0;
    found := Classified(file, segments);
    EmitAllCollects(found, capacity);
    WalkedAsFound(file, capacity);
    hide WriteFile;
    hide Walk;
    hide EncodeAll;
    hide IsFrame;
    hide EmitAll;
    NormalIsKept(Walked(file, capacity).blocks);
    hide Kept;
    hide Classify;
  }
}
