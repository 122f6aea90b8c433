/** Cutting data into GIF sub-blocks (section 15 of GIF89a) and getting it back. */
module GifRoundTrip {
  import opened Bytes
  import opened Blocks
  import opened PayloadSpec

  /** Sub-blocks hold 1 to 255 bytes each. */
  ghost predicate ProperChunks(chunks: seq<seq<Byte>>) {
    forall i :: 0 <= i < |chunks| ==> 1 <= |chunks[i]| <= 255
  }

  /** Every chunk behind a byte with its length. */
  function WriteSubblocks(chunks: seq<seq<Byte>>): seq<Byte>
    requires forall i :: 0 <= i < |chunks| ==> |chunks[i]| <= 255
  {
    if chunks == [] then [] else [|chunks[0]| as Byte] + chunks[0] + WriteSubblocks(chunks[1..])
  }

  /** The list of sub-blocks ends with a byte 0, or with the data. */
  predicate EndsList(tail: seq<Byte>) { tail == [] || tail[0] == 0 }

  lemma ConcatFirst(chunks: seq<seq<Byte>>)
    requires chunks != []
    ensures Concat(chunks) == chunks[0] + Concat(chunks[1..])
  {
    ConcatJoin([chunks[0]], chunks[1..]);
    assert chunks == [chunks[0]] + chunks[1..];
    assert [chunks[0]][..0] == [] && Concat([chunks[0]]) == chunks[0];
  }

  /** What stands at `p` when the first chunk starts there. */
  lemma FirstSubblock(src: seq<Byte>, p: nat, chunks: seq<seq<Byte>>, tail: seq<Byte>)
    requires ProperChunks(chunks) && chunks != [] && p <= |src| && src[p..] == WriteSubblocks(chunks) + tail
    ensures var n := |chunks[0]|;
            && p + 1 + n <= |src| && src[p] as nat == n && src[p + 1..p + 1 + n] == chunks[0]
            && src[p + 1 + n..] == WriteSubblocks(chunks[1..]) + tail
  {
    var n, rest := |chunks[0]|, WriteSubblocks(chunks[1..]) + tail;
    Regroup([n as Byte], chunks[0], WriteSubblocks(chunks[1..]), tail);
    hide *;
    FrontAt(src, p, [n as Byte], chunks[0] + rest);
    FrontAt(src, p + 1, chunks[0], rest);
  }

  /** The sub-blocks from `p` on are read back behind what was read before. */
  lemma {:induction false} SubblocksAreRead(src: seq<Byte>, p: nat, done: seq<Byte>, chunks: seq<seq<Byte>>,
                                            tail: seq<Byte>, options: PayloadOptions)
    requires |src| <= SPAN_MAX && p <= |src| && |done| <= p && ProperChunks(chunks) && EndsList(tail)
    requires src[p..] == WriteSubblocks(chunks) + tail
    requires chunks == [] || !OverLimit(|done| + |Concat(chunks)|, options)
    ensures |done| + |Concat(chunks)| <= |src|
    ensures GifFrom(src, p, done, options) == Stream(done + Concat(chunks))
    decreases |chunks|
  {
    if chunks == [] {
      assert WriteSubblocks(chunks) + tail == tail && done + [] == done;
      if p < |src| {
        assert src[p] == src[p..][0];
      }
    } else {
      var n := |chunks[0]|;
      ConcatFirst(chunks);
      FirstSubblock(src, p, chunks, tail);
      hide WriteSubblocks;
      SubblocksAreRead(src, p + 1 + n, done + chunks[0], chunks[1..], tail, options);
      Regroup(done, chunks[0], Concat(chunks[1..]), []);
      assert Concat(chunks[1..]) + [] == Concat(chunks[1..]);
    }
  }

  /** Extraction of a block of sub-blocks joins what was cut, whatever follows the end of the list. */
  lemma CutIsJoined(file: seq<Byte>, blocks: seq<Block>, seedIndex: U32, chunks: seq<seq<Byte>>, tail: seq<Byte>,
                    scratch: nat, options: PayloadOptions)
    requires |file| <= SPAN_MAX && seedIndex < |blocks| <= U32_MAX && ProperChunks(chunks) && EndsList(tail)
    requires blocks[seedIndex].chunking == GifSubBlocks && InFile(file, blocks[seedIndex])
    requires BlockBytes(file, blocks[seedIndex]) == WriteSubblocks(chunks) + tail
    requires options.maxOutputBytes == 0 || |Concat(chunks)| <= options.maxOutputBytes
    ensures |Concat(chunks)| <= U64_MAX
    ensures Extraction(file, blocks, seedIndex, scratch, options) == Stream(Concat(chunks))
  {
    var src := BlockBytes(file, blocks[seedIndex]);
    assert src[0..] == src && [] + Concat(chunks) == Concat(chunks);
    SubblocksAreRead(src, 0, [], chunks, tail, options);
  }
}
