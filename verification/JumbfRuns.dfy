/**
 * Split JUMBF boxes in PNG (`caBX`) and WebP (`C2PA`) files: a fragment with a box header and the
 * headerless fragments after it form a run, and become the parts of one stream.
 */
module JumbfRuns {
  import opened Bytes
  import opened Blocks
  import opened PartSort
  import opened PayloadSpec
  import opened PayloadTheorems
  import opened JumbfJoin

  /** The fragments of one kind: their container and their chunk type. */
  datatype Series = Series(format: ContainerFormat, id: U32)

  predicate IsFragment(b: Block, series: Series) {
    b.format == series.format && b.kind == Jumbf && b.id == series.id
  }

  /** The fragment starts with something that looks like the header of a box. */
  predicate HasBoxHeader(file: seq<Byte>, b: Block) {
    b.dataSize >= 8 && CheckedRange(b.dataOffset, 8, |file|)
    &&
      var size32 := BeValue(file[b.dataOffset..b.dataOffset + 4]);
      var boxType := BeValue(file[b.dataOffset + 4..b.dataOffset + 8]);
      boxType != 0
      && (if size32 == 0 then true
          else if size32 == 1 then
            b.dataSize >= 16 && CheckedRange(b.dataOffset, 16, |file|)
            && BeValue(file[b.dataOffset + 8..b.dataOffset + 16]) >= 16
          else size32 >= 8)
  }

  predicate IsHead(file: seq<Byte>, b: Block, series: Series) { IsFragment(b, series) && HasBoxHeader(file, b) }

  // ----- runs ---------------------------------------------------------------------------------------

  /** The number of fragments in `[from, to)`. */
  function FragmentCount(bs: seq<Block>, series: Series, from: nat, until: nat): (c: nat)
    requires until <= |bs|
    ensures c <= if from < until then until - from else 0
  {
    if until <= from then 0 else FragmentCount(bs, series, from, until - 1) + if IsFragment(bs[until - 1], series)
        then 1 else 0
  }

  /** `[head, end)` is a run: a head first, no other one inside, and another head or nothing after it. */
  ghost predicate IsRun(file: seq<Byte>, bs: seq<Block>, series: Series, head: nat, end: nat) {
    && head < end <= |bs| && IsHead(file, bs[head], series)
    && (forall j :: head < j < end ==> !IsHead(file, bs[j], series))
    && (end < |bs| ==> IsHead(file, bs[end], series))
  }

  /** The last head among the first `n` blocks. */
  function LastHead(file: seq<Byte>, bs: seq<Block>, series: Series, n: nat): (r: Option<nat>)
    requires n <= |bs|
    ensures r.Some? ==> r.value < n && IsHead(file, bs[r.value], series)
  {
    if n == 0 then None
    else if IsHead(file, bs[n - 1], series) then Some(n - 1)
    else LastHead(file, bs, series, n - 1)
  }

  /** The first head from position `n` on, or the end of the list. */
  function NextHead(file: seq<Byte>, bs: seq<Block>, series: Series, n: nat): (r: nat)
    requires n <= |bs|
    ensures n <= r <= |bs|
    decreases |bs| - n
  {
    if n == |bs| || IsHead(file, bs[n], series) then n else NextHead(file, bs, series, n + 1)
  }

  function RunGroup(series: Series, head: U32): U64
    requires head < U32_MAX
  {
    series.id * 0x1_0000_0000 + (head + 1)
  }

  /** Block `j` after normalisation: numbered within its run, unless the run has one fragment only. */
  function NormalFragment(file: seq<Byte>, bs: seq<Block>, series: Series, j: nat): Block
    requires j < |bs| <= U32_MAX
  {
    var head := LastHead(file, bs, series, j + 1);
    if !IsFragment(bs[j], series) || head.None? then bs[j]
    else
      var count := FragmentCount(bs, series, head.value, NextHead(file, bs, series, head.value + 1));
      if count <= 1 then bs[j]
      else bs[j].(partCount := count, partIndex := FragmentCount(bs, series, head.value, j),
                  group := RunGroup(series, head.value))
  }

  function NormalFragments(file: seq<Byte>, bs: seq<Block>, series: Series): (r: seq<Block>)
    requires |bs| <= U32_MAX
    ensures |r| == |bs| && forall j :: 0 <= j < |r| ==> r[j] == NormalFragment(file, bs, series, j)
  {
    seq(|bs|, j requires 0 <= j < |bs| => NormalFragment(file, bs, series, j))
  }

  // ----- in place ----------------------------------------------------------------------------------------

  lemma {:induction false} NoFragments(bs: seq<Block>, series: Series, from: nat, begin: nat, until: nat)
    requires from <= begin <= until <= |bs| && forall j :: begin <= j < until ==> !IsFragment(bs[j], series)
    ensures FragmentCount(bs, series, from, until) == FragmentCount(bs, series, from, begin)
  {
    if begin < until {
      NoFragments(bs, series, from, begin, until - 1);
    }
  }

  lemma {:induction false} NoHeads(file: seq<Byte>, bs: seq<Block>, series: Series, begin: nat, until: nat)
    requires begin <= until <= |bs| && forall j :: begin <= j < until ==> !IsHead(file, bs[j], series)
    ensures LastHead(file, bs, series, until) == LastHead(file, bs, series, begin)
    ensures NextHead(file, bs, series, begin) == NextHead(file, bs, series, until)
    decreases until
  {
    if begin < until {
      NoHeads(file, bs, series, begin, until - 1);
    }
  }

  method FindNextFragment(out: array<Block>, written: nat, begin: nat, series: Series) returns (i: nat)
    requires begin <= written <= out.Length
    ensures begin <= i <= written && (i < written ==> IsFragment(out[i], series))
    ensures forall j :: begin <= j < i ==> !IsFragment(out[j], series)
  {
    i := begin;
    while i < written
      invariant begin <= i <= written && forall j :: begin <= j < i ==> !IsFragment(out[j], series)
    {
      if IsFragment(out[i], series) {
        return;
      }
      i := i + 1;
    }
  }

  /** The length of the run that starts at `head`, and where the next head is. */
  method MeasureRun(file: seq<Byte>, out: array<Block>, written: nat, head: nat, series: Series)
    returns (count: nat, next: nat)
    requires head < written <= out.Length && IsHead(file, out[head], series)
    ensures next == NextHead(file, out[..written], series, head + 1)
    ensures count == FragmentCount(out[..written], series, head, next)
  {
    ghost var bs := out[..written];
    assert IsFragment(bs[head], series) && FragmentCount(bs, series, head, head) == 0;
    count, next := 1, written;
    var search := head + 1;
    while true
      invariant head < search <= written && count == FragmentCount(bs, series, head, search)
      invariant next == written && NextHead(file, bs, series, head + 1) == NextHead(file, bs, series, search)
      decreases written - search
    {
      var j := FindNextFragment(out, written, search, series);
      assert forall k :: search <= k < j ==> bs[k] == out[k];
      NoFragments(bs, series, head, search, j);
      NoHeads(file, bs, series, search, j);
      if j >= written {
        break;
      }
      assert bs[j] == out[j];
      if HasBoxHeader(file, out[j]) {
        next := j;
        break;
      }
      count := count + 1;
      search := j + 1;
    }
  }

  /** Numbers the fragments of a run. */
  method NumberRun(out: array<Block>, written: nat, head: nat, next: nat, count: U32, series: Series)
    requires head < next <= written <= out.Length && written <= U32_MAX
    requires count == FragmentCount(out[..written], series, head, next)
    modifies out
    ensures forall j :: 0 <= j < out.Length && !(head <= j < next) ==> out[j] == old(out[j])
    ensures forall j :: head <= j < next ==>
              out[j] == if IsFragment(old(out[j]), series)
                        then old(out[j]).(partCount := count, group := RunGroup(series, head),
                                          partIndex := FragmentCount(old(out[..written]), series, head, j))
                        else old(out[j])
  {
    ghost var bs := out[..written];
    var group := RunGroup(series, head);
    var partIndex: U32, search := 0, head;
    while partIndex < count
      invariant head <= search <= next && partIndex == FragmentCount(bs, series, head, search) <= count
      invariant forall j :: 0 <= j < out.Length && !(head <= j < search) ==> out[j] == old(out[j])
      invariant forall j :: head <= j < search ==>
                  out[j] == if IsFragment(bs[j], series)
                            then bs[j].(partCount := count, group := group,
                                        partIndex := FragmentCount(bs, series, head, j))
                            else bs[j]
    {
      var k := FindNextFragment(out, written, search, series);
      assert forall j :: search <= j < k ==> bs[j] == out[j];
      NoFragments(bs, series, head, search, k);
      if k >= written || (next < written && k >= next) {
        NoFragments(bs, series, head, search, next);
        break;
      }
      assert bs[k] == out[k];
      CountMonotone(bs, series, head, k + 1, next);
      out[k] := out[k].(partCount := count, partIndex := partIndex, group := group);
      partIndex := partIndex + 1;
      search := k + 1;
    }
    AllCounted(bs, series, head, search, next);
  }

  lemma {:induction false} CountMonotone(bs: seq<Block>, series: Series, from: nat, m: nat, n: nat)
    requires m <= n <= |bs|
    ensures FragmentCount(bs, series, from, m) <= FragmentCount(bs, series, from, n)
  {
    if m < n {
      CountMonotone(bs, series, from, m, n - 1);
    }
  }

  /** When all fragments are counted, none is left. */
  lemma {:induction false} AllCounted(bs: seq<Block>, series: Series, from: nat, m: nat, n: nat)
    requires from <= m <= n <= |bs| && FragmentCount(bs, series, from, m) == FragmentCount(bs, series, from, n)
    ensures forall j :: m <= j < n ==> !IsFragment(bs[j], series)
  {
    if m < n {
      CountMonotone(bs, series, from, m, n - 1);
      AllCounted(bs, series, from, m, n - 1);
    }
  }

  /** Blocks without a head before them, and blocks that are no fragments, stay as they are. */
  lemma StaysAsFound(file: seq<Byte>, bs: seq<Block>, series: Series, i: nat, head: nat)
    requires i <= head <= |bs| <= U32_MAX && forall j :: i <= j < head ==> !IsFragment(bs[j], series)
    ensures forall j :: i <= j < head ==> NormalFragment(file, bs, series, j) == bs[j]
    ensures LastHead(file, bs, series, head) == LastHead(file, bs, series, i)
    ensures head < |bs| && LastHead(file, bs, series, i).None? && !IsHead(file, bs[head], series)
            ==> NormalFragment(file, bs, series, head) == bs[head] && LastHead(file, bs, series, head + 1).None?
  {
    NoHeads(file, bs, series, i, head);
  }

  method NormalizeSplitJumbf(file: seq<Byte>, out: array<Block>, written: nat, series: Series)
    requires written <= out.Length && written <= U32_MAX
    modifies out
    ensures out[written..] == old(out[written..])
    ensures out[..written] == NormalFragments(file, old(out[..written]), series)
  {
    ghost var bs := out[..written];
    hide NormalFragment;
    hide IsHead;
    hide LastHead;
    var i := 0;
    while i < written
      invariant 0 <= i <= written && forall j :: written <= j < out.Length ==> out[j] == old(out[j])
      invariant forall j :: 0 <= j < i ==> out[j] == NormalFragment(file, bs, series, j)
      invariant forall j :: i <= j < written ==> out[j] == bs[j]
      invariant LastHead(file, bs, series, i).None? || i == written || IsHead(file, bs[i], series)
    {
      i := NormalizeFrom(file, out, written, i, series, bs);
    }
  }

  /** Looks for the next fragment; if it is a head, normalises its run. */
  method NormalizeFrom(file: seq<Byte>, out: array<Block>, written: nat, i: nat, series: Series, ghost bs: seq<Block>)
    returns (next: nat)
    requires i < written <= out.Length && written == |bs| <= U32_MAX
    requires forall j :: i <= j < written ==> out[j] == bs[j]
    requires LastHead(file, bs, series, i).None? || IsHead(file, bs[i], series)
    modifies out
    ensures i < next <= written
    ensures LastHead(file, bs, series, next).None? || next == written || IsHead(file, bs[next], series)
    ensures forall j :: 0 <= j < out.Length && !(i <= j < next) ==> out[j] == old(out[j])
    ensures forall j :: i <= j < next ==> out[j] == NormalFragment(file, bs, series, j)
  {
    hide IsFragment;
    hide HasBoxHeader;
    hide NormalFragment;
    hide LastHead;
    var head := FindNextFragment(out, written, i, series);
    assert forall j :: i <= j < head ==> bs[j] == out[j];
    StaysAsFound(file, bs, series, i, head);
    if head >= written {
      return written;
    }
    assert bs[head] == out[head];
    if !HasBoxHeader(file, out[head]) {
      return head + 1;
    }
    next := NormalizeRun(file, out, written, head, series, bs);
  }

  /** Normalises the run that starts at `head`. */
  method NormalizeRun(file: seq<Byte>, out: array<Block>, written: nat, head: nat, series: Series, ghost bs: seq<Block>)
    returns (next: nat)
    requires head < written <= out.Length && written == |bs| <= U32_MAX && IsHead(file, bs[head], series)
    requires forall j :: head <= j < written ==> out[j] == bs[j]
    modifies out
    ensures head < next <= written && (next < written ==> IsHead(file, bs[next], series))
    ensures forall j :: 0 <= j < out.Length && !(head <= j < next) ==> out[j] == old(out[j])
    ensures forall j :: head <= j < next ==> out[j] == NormalFragment(file, bs, series, j)
  {
    ghost var cs := out[..written];
    var count: nat;
    count, next := MeasureRun(file, out, written, head, series);
    SameBlocksSameRun(file, bs, cs, series, head);
    RunOfHead(file, bs, series, head);
    if count > 1 {
      NumberRun(out, written, head, next, count, series);
    }
    hide IsHead;
    hide IsFragment;
    forall j | head <= j < next ensures out[j] == NormalFragment(file, bs, series, j) {
      HeadOfRun(file, bs, series, head, next, j);
      SameCounts(bs, cs, series, head, j);
      assert cs[j] == bs[j];
      hide FragmentCount;
    }
  }

  lemma {:induction false} SameCounts(bs: seq<Block>, cs: seq<Block>, series: Series, from: nat, until: nat)
    requires until <= |bs| == |cs| && forall j :: from <= j < |bs| ==> bs[j] == cs[j]
    ensures FragmentCount(bs, series, from, until) == FragmentCount(cs, series, from, until)
  {
    if from < until {
      SameCounts(bs, cs, series, from, until - 1);
    }
  }

  lemma {:induction false} SameNextHead(file: seq<Byte>, bs: seq<Block>, cs: seq<Block>, series: Series, n: nat)
    requires n <= |bs| == |cs| && forall j :: n <= j < |bs| ==> bs[j] == cs[j]
    ensures NextHead(file, bs, series, n) == NextHead(file, cs, series, n)
    decreases |bs| - n
  {
    if n < |bs| {
      SameNextHead(file, bs, cs, series, n + 1);
    }
  }

  lemma SameBlocksSameRun(file: seq<Byte>, bs: seq<Block>, cs: seq<Block>, series: Series, head: nat)
    requires head < |bs| == |cs| && forall j :: head <= j < |bs| ==> bs[j] == cs[j]
    ensures var next := NextHead(file, bs, series, head + 1);
            && next == NextHead(file, cs, series, head + 1)
            && FragmentCount(bs, series, head, next) == FragmentCount(cs, series, head, next)
  {
    SameNextHead(file, bs, cs, series, head + 1);
    SameCounts(bs, cs, series, head, NextHead(file, bs, series, head + 1));
  }

  // ----- what a run becomes --------------------------------------------------------------------------------

  lemma {:induction false} NextHeadIsFirst(file: seq<Byte>, bs: seq<Block>, series: Series, n: nat)
    requires n <= |bs|
    ensures var r := NextHead(file, bs, series, n);
            (r < |bs| ==> IsHead(file, bs[r], series)) && forall j :: n <= j < r ==> !IsHead(file, bs[j], series)
    decreases |bs| - n
  {
    if n < |bs| && !IsHead(file, bs[n], series) {
      NextHeadIsFirst(file, bs, series, n + 1);
    }
  }

  /** Every head starts a run. */
  lemma RunOfHead(file: seq<Byte>, bs: seq<Block>, series: Series, head: nat)
    requires head < |bs| && IsHead(file, bs[head], series)
    ensures IsRun(file, bs, series, head, NextHead(file, bs, series, head + 1))
  {
    NextHeadIsFirst(file, bs, series, head + 1);
  }

  /** The head of a run is the last head before any of its blocks, and the run ends at the next one. */
  lemma HeadOfRun(file: seq<Byte>, bs: seq<Block>, series: Series, head: nat, end: nat, j: nat)
    requires IsRun(file, bs, series, head, end) && head <= j < end
    ensures LastHead(file, bs, series, j + 1) == Some(head) && NextHead(file, bs, series, head + 1) == end
  {
    NoHeads(file, bs, series, head + 1, j + 1);
    NoHeads(file, bs, series, head + 1, end);
  }

  /** The fragments of a run carry the numbers 0, 1, ... in file order, their count, and the group of the run. */
  lemma RunIsNumbered(file: seq<Byte>, bs: seq<Block>, series: Series, head: nat, end: nat, j: nat)
    requires |bs| <= U32_MAX && IsRun(file, bs, series, head, end) && FragmentCount(bs, series, head, end) > 1
    requires head <= j < end && IsFragment(bs[j], series)
    ensures NormalFragment(file, bs, series, j)
            == bs[j].(partIndex := FragmentCount(bs, series, head, j),
                      partCount := FragmentCount(bs, series, head, end),
                      group := RunGroup(series, head))
  {
    HeadOfRun(file, bs, series, head, end, j);
    hide IsHead;
    hide IsFragment;
    hide FragmentCount;
  }

  /** No group is 0, and different runs have different groups. */
  lemma GroupsAreDistinct(series: Series, head: U32, other: U32)
    requires head < U32_MAX && other < U32_MAX
    ensures RunGroup(series, head) != 0 && (RunGroup(series, head) == RunGroup(series, other) ==> head == other)
  {
  }

  /** The blocks as the PNG and WebP scanners emit them. */
  ghost predicate AsEmitted(file: seq<Byte>, bs: seq<Block>, series: Series) {
    forall j :: 0 <= j < |bs| && IsFragment(bs[j], series) ==>
      && InFile(file, bs[j]) && bs[j].chunking == Raw && bs[j].compression == Uncompressed
      && bs[j].group == 0 && bs[j].logicalOffset == 0
  }

  /** A block outside the run is in no stream of the run. */
  lemma OutsideIsElsewhere(file: seq<Byte>, bs: seq<Block>, series: Series, head: nat, end: nat, j: nat)
    requires |bs| <= U32_MAX && IsRun(file, bs, series, head, end) && AsEmitted(file, bs, series)
    requires j < |bs| && !(head <= j < end) && IsFragment(bs[j], series)
    ensures NormalFragment(file, bs, series, j).group != RunGroup(series, head)
  {
    hide HasBoxHeader;
    hide FragmentCount;
    HeadElsewhere(file, bs, series, head, end, j);
    var other := LastHead(file, bs, series, j + 1);
    if other.Some? {
      GroupsAreDistinct(series, head, other.value);
    }
  }

  lemma HeadElsewhere(file: seq<Byte>, bs: seq<Block>, series: Series, head: nat, end: nat, j: nat)
    requires IsRun(file, bs, series, head, end) && j < |bs| && !(head <= j < end)
    ensures LastHead(file, bs, series, j + 1) != Some(head)
  {
    if LastHead(file, bs, series, j + 1) == Some(head) {
      NoHeadBetween(file, bs, series, j + 1, head);
    }
  }

  lemma {:induction false} NoHeadBetween(file: seq<Byte>, bs: seq<Block>, series: Series, n: nat, head: nat)
    requires n <= |bs| && LastHead(file, bs, series, n) == Some(head)
    ensures forall j :: head < j < n ==> !IsHead(file, bs[j], series)
  {
    if head < n - 1 {
      NoHeadBetween(file, bs, series, n - 1, head);
    }
  }

  // ----- joining a run ---------------------------------------------------------------------------------------

  /** The positions of the fragments in `[head, to)`. */
  function RunMembers(bs: seq<Block>, series: Series, head: nat, until: nat): (r: seq<U32>)
    requires until <= |bs| <= U32_MAX
    ensures |r| == FragmentCount(bs, series, head, until)
    ensures forall i :: 0 <= i < |r| ==> head <= r[i] < until && IsFragment(bs[r[i]], series)
  {
    if until <= head then []
    else RunMembers(bs, series, head, until - 1) + if IsFragment(bs[until - 1], series) then [until - 1] else []
  }

  lemma {:induction false} RunMemberNumber(bs: seq<Block>, series: Series, head: nat, until: nat, i: nat)
    requires head <= until <= |bs| <= U32_MAX && i < |RunMembers(bs, series, head, until)|
    ensures FragmentCount(bs, series, head, RunMembers(bs, series, head, until)[i]) == i
  {
    if i < |RunMembers(bs, series, head, until - 1)| {
      RunMemberNumber(bs, series, head, until - 1, i);
    }
  }

  /** The bytes of the fragments of a run, in file order. */
  function RunPieces(file: seq<Byte>, bs: seq<Block>, members: seq<U32>): (r: seq<seq<Byte>>)
    requires forall i :: 0 <= i < |members| ==> members[i] < |bs| && InFile(file, bs[members[i]])
    ensures |r| == |members|
  {
    seq(|members|, i requires 0 <= i < |members| => BlockBytes(file, bs[members[i]]))
  }

  lemma {:induction false} MembersOfRun(seed: Block, ns: seq<Block>, bs: seq<Block>, series: Series, head: nat,
                                        end: nat, n: nat)
    requires head < end <= |bs| == |ns| <= U32_MAX && n <= |bs|
    requires forall j :: 0 <= j < |bs| ==> (SameStream(seed, ns[j]) <==> head <= j < end && IsFragment(bs[j], series))
    ensures Members(seed, ns, n) == RunMembers(bs, series, head, Min(n, end))
  {
    hide SameStream;
    hide IsFragment;
    if n > 0 {
      MembersOfRun(seed, ns, bs, series, head, end, n - 1);
    }
  }

  /** The stream of a member is its run. */
  lemma StreamIsRun(file: seq<Byte>, bs: seq<Block>, series: Series, head: nat, end: nat, seedIndex: nat, j: nat)
    requires |bs| <= U32_MAX && IsRun(file, bs, series, head, end) && AsEmitted(file, bs, series)
    requires FragmentCount(bs, series, head, end) > 1
    requires head <= seedIndex < end && IsFragment(bs[seedIndex], series) && j < |bs|
    ensures var ns := NormalFragments(file, bs, series);
            SameStream(ns[seedIndex], ns[j]) <==> head <= j < end && IsFragment(bs[j], series)
  {
    RunIsNumbered(file, bs, series, head, end, seedIndex);
    var b := NormalFragment(file, bs, series, j);
    assert IsFragment(b, series) <==> IsFragment(bs[j], series) by {
      hide FragmentCount;
      hide LastHead;
    }
    if IsFragment(bs[j], series) {
      if head <= j < end {
        RunIsNumbered(file, bs, series, head, end, j);
      } else {
        OutsideIsElsewhere(file, bs, series, head, end, j);
      }
    }
    hide NormalFragment;
    hide HasBoxHeader;
    hide FragmentCount;
  }

  lemma RunCarriesPieces(file: seq<Byte>, bs: seq<Block>, series: Series, head: nat, end: nat)
    requires |bs| <= U32_MAX && IsRun(file, bs, series, head, end) && AsEmitted(file, bs, series)
    requires FragmentCount(bs, series, head, end) > 1
    ensures var ns := NormalFragments(file, bs, series);
            var members := RunMembers(bs, series, head, end);
            && CarryPieces(file, ns, members, RunPieces(file, bs, members))
            && forall i :: 0 <= i < |members| ==> ns[members[i]].logicalOffset == 0
  {
    var ns := NormalFragments(file, bs, series);
    var members := RunMembers(bs, series, head, end);
    forall i | 0 <= i < |members|
      ensures ns[members[i]].partIndex == i && ns[members[i]].logicalOffset == 0
      ensures CarriesPiece(file, ns[members[i]], RunPieces(file, bs, members))
    {
      MemberCarriesPiece(file, bs, series, head, end, i);
    }
    hide NormalFragment;
    hide CarriesPiece;
    hide IsRun;
    hide AsEmitted;
    hide IsFragment;
    hide FragmentCount;
  }

  lemma MemberCarriesPiece(file: seq<Byte>, bs: seq<Block>, series: Series, head: nat, end: nat, i: nat)
    requires |bs| <= U32_MAX && IsRun(file, bs, series, head, end) && AsEmitted(file, bs, series)
    requires FragmentCount(bs, series, head, end) > 1 && i < |RunMembers(bs, series, head, end)|
    ensures var members := RunMembers(bs, series, head, end);
            var b := NormalFragments(file, bs, series)[members[i]];
            && b.partIndex == i && b.logicalOffset == 0
            && (forall k :: 0 <= k < |members| ==> InFile(file, bs[members[k]]))
            && CarriesPiece(file, b, RunPieces(file, bs, members))
  {
    var members := RunMembers(bs, series, head, end);
    hide NormalFragment;
    hide HasBoxHeader;
    RunIsNumbered(file, bs, series, head, end, members[i]);
    RunMemberNumber(bs, series, head, end, i);
    hide IsRun;
    hide FragmentCount;
    hide RunMembers;
  }

  /**
   * The extraction from any fragment of a run of more than one returns the fragments of that run, one
   * after another, provided that the run fits the limits.
   */
  lemma RunIsJoined(file: seq<Byte>, bs: seq<Block>, series: Series, head: nat, end: nat, seedIndex: nat, scratch: nat,
                    options: PayloadOptions)
    requires |bs| <= U32_MAX && |file| <= SPAN_MAX && IsRun(file, bs, series, head, end) && AsEmitted(file, bs, series)
    requires head <= seedIndex < end && IsFragment(bs[seedIndex], series)
    requires 1 < FragmentCount(bs, series, head, end) <= Min(options.maxParts, scratch)
    requires |Concat(RunPieces(file, bs, RunMembers(bs, series, head, end)))| <= U64_MAX
    requires !OverLimit(|Concat(RunPieces(file, bs, RunMembers(bs, series, head, end)))|, options)
    ensures Extraction(file, NormalFragments(file, bs, series), seedIndex, scratch, options)
            == Stream(Concat(RunPieces(file, bs, RunMembers(bs, series, head, end))))
  {
    var ns := NormalFragments(file, bs, series);
    var seed := ns[seedIndex];
    var members := RunMembers(bs, series, head, end);
    var pieces := RunPieces(file, bs, members);
    forall j | 0 <= j < |bs| ensures SameStream(seed, ns[j]) <==> head <= j < end && IsFragment(bs[j], series) {
      StreamIsRun(file, bs, series, head, end, seedIndex, j);
    }
    MembersOfRun(seed, ns, bs, series, head, end, |bs|);
    RunCarriesPieces(file, bs, series, head, end);
    RunIsNumbered(file, bs, series, head, end, seedIndex);
    hide IsHead;
    hide IsRun;
    hide AsEmitted;
    hide FragmentCount;
    hide RunMembers;
    hide CarryPieces;
    hide NormalFragment;
    hide Members;
    hide SameStream;
    hide Extraction;
    SeedExtractsPieces(file, ns, seedIndex, members, pieces, scratch, options);
  }
}
