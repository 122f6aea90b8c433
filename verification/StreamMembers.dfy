/** The members of the stream of a block, by their numbers in the list of blocks. */
module StreamMembers {
  import opened Bytes
  import opened Blocks
  import opened PayloadSpec

  ghost predicate Increasing(order: seq<U32>) { forall i, j :: 0 <= i < j < |order| ==> order[i] < order[j] }

  /** The first `m` numbers of `order` are those below `n`. */
  ghost predicate CutBelow(order: seq<U32>, n: nat, m: nat) {
    m <= |order| && forall i :: 0 <= i < |order| ==> (order[i] < n <==> i < m)
  }

  lemma CutOneBelow(order: seq<U32>, n: nat, m: nat)
    requires n > 0 && Increasing(order) && CutBelow(order, n, m)
    ensures if m > 0 && order[m - 1] == n - 1 then CutBelow(order, n - 1, m - 1)
            else CutBelow(order, n - 1, m) && forall i :: 0 <= i < |order| ==> order[i] != n - 1
  {
    forall i | 0 <= i < m - 1 ensures order[i] < n - 1 {
      assert order[i] < order[m - 1];
    }
  }

  /** The members of a stream, in order, are the numbers of its blocks. */
  lemma {:induction false} MembersInOrder(seed: Block, blocks: seq<Block>, order: seq<U32>, n: nat, m: nat)
    requires n <= |blocks| <= U32_MAX && Increasing(order) && CutBelow(order, n, m)
    requires forall j: U32 :: j < |blocks| ==> (SameStream(seed, blocks[j]) <==> j in order)
    ensures Members(seed, blocks, n) == order[..m]
  {
    hide SameStream;
    if n > 0 {
      var last: U32 := n - 1;
      CutOneBelow(order, n, m);
      hide Increasing;
      if m > 0 && order[m - 1] == last {
        MembersInOrder(seed, blocks, order, n - 1, m - 1);
        assert order[..m] == order[..m - 1] + [last];
      } else {
        assert last !in order;
        MembersInOrder(seed, blocks, order, n - 1, m);
      }
    }
  }

  /** If exactly the numbered blocks match the seed, the members are these numbers, in ascending order. */
  lemma MembersAreOrder(seed: Block, blocks: seq<Block>, order: seq<U32>)
    requires |blocks| <= U32_MAX && Increasing(order) && forall i :: 0 <= i < |order| ==> order[i] < |blocks|
    requires forall j: U32 :: j < |blocks| ==> (SameStream(seed, blocks[j]) <==> j in order)
    ensures Members(seed, blocks, |blocks|) == order
  {
    hide SameStream;
    MembersInOrder(seed, blocks, order, |blocks|, |order|);
    assert order[..|order|] == order;
  }

  /** A block that is more than a single one belongs to its own stream, whatever its stream is. */
  lemma SeedIsMember(blocks: seq<Block>, seedIndex: U32)
    requires seedIndex < |blocks| <= U32_MAX && !IsSingle(blocks[seedIndex])
    ensures seedIndex in Members(blocks[seedIndex], blocks, |blocks|)
  {
    MatchIsMember(blocks[seedIndex], blocks, |blocks|, seedIndex);
  }

  /** The members are the blocks of the stream: none is missed. */
  lemma {:induction false} MatchIsMember(seed: Block, blocks: seq<Block>, n: nat, j: U32)
    requires j < n <= |blocks| <= U32_MAX && SameStream(seed, blocks[j])
    ensures j in Members(seed, blocks, n)
  {
    hide SameStream;
    if j < n - 1 {
      MatchIsMember(seed, blocks, n - 1, j);
      if SameStream(seed, blocks[n - 1]) {
        assert Members(seed, blocks, n) == Members(seed, blocks, n - 1) + [n - 1];
      }
    }
  }
}
