/** The sink that collects the blocks found by a scan into a caller's array. */
module BlockSinks {
  import opened Bytes
  import opened Blocks

  datatype ScanStatus = Ok | OutputTruncated | Unsupported | Malformed

  /** What a scan has collected: the blocks that fit, how many there were, and the status. */
  datatype Collected = Collected(blocks: seq<Block>, needed: nat, status: ScanStatus)

  const NOTHING := Collected([], 0, Ok)

  /** One more block; a missing output buffer only counts. */
  function Emit(c: Collected, capacity: nat, b: Block): Collected {
    if capacity == 0 then c.(needed := c.needed + 1)
    else if |c.blocks| < capacity then c.(blocks := c.blocks + [b], needed := c.needed + 1)
    else Collected(c.blocks, c.needed + 1, if c.status == Ok then OutputTruncated else c.status)
  }

  function EmitOption(c: Collected, capacity: nat, b: Option<Block>): Collected {
    match b case None => c case Some(block) => Emit(c, capacity, block)
  }

  /** With room for all, a scan collects exactly the blocks it finds, in order. */
  function EmitAll(c: Collected, capacity: nat, found: seq<Option<Block>>): Collected {
    if found == [] then c
    else EmitOption(EmitAll(c, capacity, found[..|found| - 1]), capacity, found[|found| - 1])
  }

  /** The same for a list of blocks. */
  function EmitBlocks(c: Collected, capacity: nat, blocks: seq<Block>): Collected {
    if blocks == [] then c
    else Emit(EmitBlocks(c, capacity, blocks[..|blocks| - 1]), capacity, blocks[|blocks| - 1])
  }

  lemma {:induction false} EmitBlocksJoin(c: Collected, capacity: nat, a: seq<Block>, b: seq<Block>)
    ensures EmitBlocks(c, capacity, a + b) == EmitBlocks(EmitBlocks(c, capacity, a), capacity, b)
  {
    if b == [] {
      assert a + b == a;
    } else {
      var init := b[..|b| - 1];
      EmitBlocksJoin(c, capacity, a, init);
      assert (a + b)[..|a + b| - 1] == a + init;
    }
  }

  /** What an output of any size holds in the end: the first blocks, the number of all, and whether some are missing. */
  lemma {:induction false} AllBlocksEmitted(capacity: nat, blocks: seq<Block>)
    ensures EmitBlocks(NOTHING, capacity, blocks)
            == Collected(blocks[..Min(|blocks|, capacity)], |blocks|,
                         if 0 < capacity < |blocks| then OutputTruncated else Ok)
  {
    if blocks != [] {
      var init := blocks[..|blocks| - 1];
      AllBlocksEmitted(capacity, init);
      assert init[..Min(|init|, capacity)] == blocks[..Min(|init|, capacity)];
      assert blocks == init + [blocks[|blocks| - 1]];
    }
  }

  class BlockSink {
    const out: array<Block>
    var status: ScanStatus
    var needed: nat
    var written: nat

    ghost predicate Valid()
      reads this
    {
      written <= out.Length
    }

    ghost function Collection(): Collected
      requires Valid()
      reads this, out
    {
      Collected(out[..written], needed, status)
    }

    constructor (out: array<Block>)
      ensures Valid() && this.out == out && Collection() == NOTHING
    {
      this.out := out;
      status, needed, written := Ok, 0, 0;
    }

    method SinkEmit(b: Block)
      requires Valid()
      modifies this, out
      ensures Valid() && Collection() == Emit(old(Collection()), out.Length, b)
    {
      needed := needed + 1;
      if out.Length == 0 {
        return;
      }
      if written < out.Length {
        out[written] := b;
        written := written + 1;
        assert out[..written] == old(out[..written]) + [b];
      } else if status == Ok {
        status := OutputTruncated;
      }
    }
  }
}
