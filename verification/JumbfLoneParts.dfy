/**
 * Groups of JUMBF segments from which something is missing: exactly the complete groups are joined, and
 * every segment of any other group stands alone, with its own copy of the box header.
 */
module JumbfLoneParts {
  import opened Bytes
  import opened Blocks
  import opened JumbfGroups
  import opened PayloadSpec

  /** The numbers of the members of the group among the first `n` blocks. */
  ghost function NumbersOf(bs: seq<Block>, group: U64, n: nat): set<int>
    requires n <= |bs|
  {
    if n == 0 then {} else NumbersOf(bs, group, n - 1) + if InGroup(bs[n - 1], group) then {bs[n - 1].partIndex} else {}
  }

  /** No two members of the group have the same number. */
  ghost predicate NoneTwice(bs: seq<Block>, group: U64) {
    forall a, b :: 0 <= a < b < |bs| && InGroup(bs[a], group) && InGroup(bs[b], group) ==>
      bs[a].partIndex != bs[b].partIndex
  }

  lemma {:induction false} NumbersAreThose(bs: seq<Block>, group: U64, n: nat)
    requires n <= |bs|
    ensures forall x :: x in NumbersOf(bs, group, n) <==>
                          exists j :: 0 <= j < n && InGroup(bs[j], group) && bs[j].partIndex == x
  {
    hide IsApp11;
    if n > 0 {
      NumbersAreThose(bs, group, n - 1);
    }
  }

  lemma {:induction false} NumbersCount(bs: seq<Block>, group: U64, n: nat)
    requires n <= |bs| && NoneTwice(bs, group)
    ensures |NumbersOf(bs, group, n)| == GroupCount(bs, group, n)
  {
    hide IsApp11;
    if n > 0 {
      NumbersCount(bs, group, n - 1);
      NumbersAreThose(bs, group, n - 1);
    }
  }

  ghost function From(base: int, n: nat): (r: set<int>)
    ensures |r| == n && forall x :: x in r <==> base <= x < base + n
  {
    if n == 0 then {} else From(base, n - 1) + {base + n - 1}
  }

  lemma SubsetOfSameSize(a: set<int>, b: set<int>)
    requires a <= b && |a| == |b|
    ensures a == b
  {
    assert b == a + (b - a);
    assert |b| == |a| + |b - a|;
  }

  /** The group is numbered from `base` on, without gap and without repetition. */
  ghost predicate CompleteFrom(bs: seq<Block>, group: U64, base: int) {
    && NoneTwice(bs, group) && NumbersOf(bs, group, |bs|) == From(base, GroupCount(bs, group, |bs|))
  }

  lemma ValidIsComplete(bs: seq<Block>, group: U64, base: nat)
    requires base <= 1 && GroupCount(bs, group, |bs|) > 0
    ensures ValidBase(bs, group, base) <==> CompleteFrom(bs, group, base)
  {
    hide IsApp11;
    var n := GroupCount(bs, group, |bs|);
    NumbersAreThose(bs, group, |bs|);
    if ValidBase(bs, group, base) {
      NumbersCount(bs, group, |bs|);
      SubsetOfSameSize(NumbersOf(bs, group, |bs|), From(base, n));
    }
    if CompleteFrom(bs, group, base) {
      assert base in From(base, n) && base + n - 1 in From(base, n);
      forall j | 0 <= j < |bs| && InGroup(bs[j], group) ensures base <= bs[j].partIndex < base + n {
        assert bs[j].partIndex in NumbersOf(bs, group, |bs|);
      }
    }
  }

  /** The segments of a group are joined exactly if they are numbered from 0 or from 1 without gap. */
  lemma JoinedIfComplete(bs: seq<Block>, group: U64)
    requires GroupCount(bs, group, |bs|) > 0
    ensures BaseOf(bs, group).Some? <==> CompleteFrom(bs, group, 0) || CompleteFrom(bs, group, 1)
    ensures forall base :: BaseOf(bs, group) == Some(base) ==> CompleteFrom(bs, group, base)
  {
    ValidIsComplete(bs, group, 0);
    ValidIsComplete(bs, group, 1);
    hide ValidBase;
    hide HasNumber;
    hide CompleteFrom;
  }

  /** The block is a segment with this box header in front of its data, which the group shares. */
  ghost predicate IsLonePart(file: seq<Byte>, b: Block, header: seq<Byte>, chunk: seq<Byte>) {
    && (|header| == 8 || |header| == 16) && b.dataOffset == b.outerOffset + 12 + |header|
    && b.dataSize == |chunk| <= SPAN_MAX && b.dataOffset + b.dataSize <= |file|
    && file[b.dataOffset - |header|..b.dataOffset] == header
    && file[b.dataOffset..b.dataOffset + b.dataSize] == chunk
    && IsApp11(b) && b.chunking == Raw && b.compression == Uncompressed
  }

  /** A segment of an incomplete group is extracted alone: its own copy of the header, and its own data. */
  lemma LonePartExtracts(file: seq<Byte>, bs: seq<Block>, j: nat, header: seq<Byte>, chunk: seq<Byte>, scratch: nat,
                         options: PayloadOptions)
    requires |file| <= SPAN_MAX && |bs| <= U32_MAX && Sized(bs) && j < |bs| && IsLonePart(file, bs[j], header, chunk)
    requires !CompleteFrom(bs, bs[j].group, 0) && !CompleteFrom(bs, bs[j].group, 1)
    requires options.maxOutputBytes == 0 || |header| + |chunk| <= options.maxOutputBytes
    ensures Extraction(file, Normalized(bs), j, scratch, options) == Stream(header + chunk)
  {
    CountPositive(bs, bs[j].group, j, |bs|);
    JoinedIfComplete(bs, bs[j].group);
    hide CompleteFrom;
    hide BaseOf;
    hide GroupCount;
    var b := Normalized(bs)[j];
    assert b == WithHeader(bs[j].(partIndex := 0, partCount := 1));
    var start := bs[j].dataOffset - |header|;
    assert b.dataOffset == start && b.dataSize == |header| + |chunk|;
    assert file[start..start + (|header| + |chunk|)]
           == file[start..bs[j].dataOffset] + file[bs[j].dataOffset..bs[j].dataOffset + |chunk|];
    hide NormalBlock;
  }
}
