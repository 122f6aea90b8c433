/**
 * Normalisation of the JUMBF segments of a JPEG file: segments with the same box header form a group,
 * whose raw sequence numbers (from 0 or from 1) become part numbers from 0, and whose first part gets
 * the box header back.
 */
module JumbfGroups {
  import opened Bytes
  import opened Blocks

  const APP11 := 0xFFEB

  predicate IsApp11(b: Block) { b.format == Jpeg && b.kind == Jumbf && b.id == APP11 }

  predicate InGroup(b: Block, group: U64) { IsApp11(b) && b.group == group }

  // ----- what it does to a list of blocks ----------------------------------------------------------

  /** The number of members of the group among the first `n` blocks. */
  function GroupCount(bs: seq<Block>, group: U64, n: nat): (c: nat)
    requires n <= |bs|
    ensures c <= n
  {
    if n == 0 then 0 else GroupCount(bs, group, n - 1) + if InGroup(bs[n - 1], group) then 1 else 0
  }

  predicate HasNumber(bs: seq<Block>, group: U64, number: int) {
    exists j :: 0 <= j < |bs| && InGroup(bs[j], group) && bs[j].partIndex == number
  }

  /** The raw numbers of the group run from `base` without gap or repetition. */
  predicate ValidBase(bs: seq<Block>, group: U64, base: nat) {
    var count := GroupCount(bs, group, |bs|);
    && base <= 1
    && (forall j :: 0 <= j < |bs| && InGroup(bs[j], group) ==> base <= bs[j].partIndex < base + count)
    && HasNumber(bs, group, base) && HasNumber(bs, group, base + count - 1)
    && (forall a, b :: 0 <= a < b < |bs| && InGroup(bs[a], group) && InGroup(bs[b], group) ==>
        bs[a].partIndex != bs[b].partIndex)
  }

  /** The number that the group starts from: 0 if it occurs, else 1; else the other one; else none. */
  function BaseOf(bs: seq<Block>, group: U64): Option<nat> {
    var base := if HasNumber(bs, group, 0) then 0 else 1;
    if ValidBase(bs, group, base) then Some(base)
    else if ValidBase(bs, group, 1 - base) then Some(1 - base)
    else None
  }

  /** The block extended to the front by the box header that precedes its data. */
  function WithHeader(b: Block): (r: Block)
    requires b.dataSize <= U64_MAX - 16
    ensures r.dataSize <= b.dataSize + 16
  {
    var headerStart := b.outerOffset + 12;
    if b.dataOffset <= headerStart then b
    else
      var length := b.dataOffset - headerStart;
      if (length != 8 && length != 16) || b.dataOffset < length then b
      else b.(dataOffset := b.dataOffset - length, dataSize := b.dataSize + length)
  }

  /** A member after normalisation, for the base of its group (`None`: every segment stands alone). */
  function Renumbered(b: Block, base: Option<nat>, count: U32): Block
    requires b.dataSize <= U64_MAX - 16 && (base.Some? ==> base.value <= b.partIndex)
  {
    match base
    case None => WithHeader(b.(partIndex := 0, partCount := 1))
    case Some(start) =>
      var numbered := b.(partIndex := b.partIndex - start, partCount := count);
      if numbered.partIndex == 0 then WithHeader(numbered) else numbered
  }

  /** No size overflows when a box header is added. */
  ghost predicate Sized(bs: seq<Block>) {
    forall j :: 0 <= j < |bs| ==> bs[j].dataSize <= U64_MAX - 16
  }

  /** The blocks lie in a file. */
  ghost predicate InFiles(bs: seq<Block>) {
    forall j :: 0 <= j < |bs| ==> bs[j].dataSize <= SPAN_MAX
  }

  /** Block `j` after normalisation. */
  function NormalBlock(bs: seq<Block>, j: nat): Block
    requires j < |bs| <= U32_MAX && Sized(bs)
  {
    if IsApp11(bs[j]) then Renumbered(bs[j], BaseOf(bs, bs[j].group), GroupCount(bs, bs[j].group, |bs|)) else bs[j]
  }

  function Normalized(bs: seq<Block>): (r: seq<Block>)
    requires |bs| <= U32_MAX && Sized(bs)
    ensures |r| == |bs| && forall j :: 0 <= j < |bs| ==> r[j] == NormalBlock(bs, j)
  {
    seq(|bs|, j requires 0 <= j < |bs| => NormalBlock(bs, j))
  }

  /** The second base is tried in vain: a group that does not start at the first one is never valid. */
  lemma OtherBaseNeverValid(bs: seq<Block>, group: U64)
    requires !ValidBase(bs, group, if HasNumber(bs, group, 0) then 0 else 1)
    ensures BaseOf(bs, group) == None
  {
    if HasNumber(bs, group, 0) {
      assert !ValidBase(bs, group, 1);
    }
  }

  // ----- groups do not interfere -----------------------------------------------------------------------

  /** The two lists hold the same members of the group, at the same places. */
  ghost predicate SameGroup(bs: seq<Block>, cs: seq<Block>, group: U64) {
    && |bs| == |cs|
    && forall j :: 0 <= j < |bs| ==>
      (InGroup(bs[j], group) <==> InGroup(cs[j], group)) && (InGroup(bs[j], group) ==> bs[j] == cs[j])
  }

  lemma {:induction false} SameCount(bs: seq<Block>, cs: seq<Block>, group: U64, n: nat)
    requires SameGroup(bs, cs, group) && n <= |bs|
    ensures GroupCount(bs, group, n) == GroupCount(cs, group, n)
  {
    if n > 0 {
      SameCount(bs, cs, group, n - 1);
    }
  }

  lemma SameNumber(bs: seq<Block>, cs: seq<Block>, group: U64, number: int)
    requires SameGroup(bs, cs, group)
    ensures HasNumber(bs, group, number) == HasNumber(cs, group, number)
  {
    if HasNumber(bs, group, number) {
      var j :| 0 <= j < |bs| && InGroup(bs[j], group) && bs[j].partIndex == number;
      assert InGroup(cs[j], group) && cs[j].partIndex == number;
    }
    if HasNumber(cs, group, number) {
      var j :| 0 <= j < |cs| && InGroup(cs[j], group) && cs[j].partIndex == number;
      assert InGroup(bs[j], group) && bs[j].partIndex == number;
    }
  }

  lemma SameValidity(bs: seq<Block>, cs: seq<Block>, group: U64, base: nat)
    requires SameGroup(bs, cs, group)
    ensures ValidBase(bs, group, base) == ValidBase(cs, group, base)
  {
    SameCount(bs, cs, group, |bs|);
    var count := GroupCount(bs, group, |bs|);
    SameNumber(bs, cs, group, base);
    SameNumber(bs, cs, group, base + count - 1);
    hide HasNumber;
    hide GroupCount;
  }

  // ----- what the in-place steps do ----------------------------------------------------------------------

  /** A numbered part: renumbered from 0. */
  function Patched(b: Block, base: nat, count: U32): Block
    requires base <= b.partIndex
  {
    b.(partIndex := b.partIndex - base, partCount := count)
  }

  /** The parts of the group are numbered from 0 and know their number. */
  ghost predicate PatchedList(bs: seq<Block>, cs: seq<Block>, group: U64, base: nat, count: U32) {
    && |cs| == |bs|
    && forall j :: 0 <= j < |bs| ==>
         if InGroup(bs[j], group) then base <= bs[j].partIndex
             && cs[j] == Patched(bs[j], base, count) else cs[j] == bs[j]
  }

  /** The first part of the group has its header back. */
  ghost predicate RestoredList(bs: seq<Block>, cs: seq<Block>, group: U64) {
    && |cs| == |bs| && Sized(bs)
    && forall j :: 0 <= j < |bs| ==>
      cs[j] == if InGroup(bs[j], group) && bs[j].partIndex == 0 then WithHeader(bs[j]) else bs[j]
  }

  /** Every part of the group stands alone, with its own header. */
  ghost predicate IndependentList(bs: seq<Block>, cs: seq<Block>, group: U64) {
    && |cs| == |bs| && Sized(bs)
    && forall j :: 0 <= j < |bs| ==> cs[j] == if InGroup(bs[j], group) then Renumbered(bs[j], None, 0) else bs[j]
  }

  /** The group, and nothing else, is in normal form. */
  ghost predicate NormalGroup(bs: seq<Block>, cs: seq<Block>, group: U64) {
    && |cs| == |bs| <= U32_MAX && Sized(bs)
    && forall j :: 0 <= j < |bs| ==> cs[j] == if InGroup(bs[j], group) then NormalBlock(bs, j) else bs[j]
  }

  lemma PatchedStaysSized(bs: seq<Block>, cs: seq<Block>, group: U64, base: nat, count: U32)
    requires PatchedList(bs, cs, group, base, count) && Sized(bs)
    ensures Sized(cs)
  {
  }

  /** Numbers that differ still differ. */
  lemma PatchedStaysDistinct(bs: seq<Block>, cs: seq<Block>, group: U64, base: nat, count: U32)
    requires PatchedList(bs, cs, group, base, count) && Distinct(bs, group)
    ensures Distinct(cs, group)
  {
  }

  /** In a group with a base, numbering the parts and restoring one header gives the normal form. */
  lemma PatchedAndRestored(bs: seq<Block>, cs: seq<Block>, ds: seq<Block>, group: U64, base: nat, count: U32)
    requires |bs| <= U32_MAX && Sized(bs) && BaseOf(bs, group) == Some(base) && count == GroupCount(bs, group, |bs|)
    requires PatchedList(bs, cs, group, base, count) && RestoredList(cs, ds, group)
    ensures NormalGroup(bs, ds, group)
  {
    hide BaseOf;
    hide GroupCount;
    hide WithHeader;
    forall j | 0 <= j < |bs| ensures ds[j] == if InGroup(bs[j], group) then NormalBlock(bs, j) else bs[j] {
      assert InGroup(cs[j], group) == InGroup(bs[j], group);
    }
  }

  /** In a group without a base, the normal form is that every part stands alone. */
  lemma IndependentIsNormal(bs: seq<Block>, cs: seq<Block>, group: U64)
    requires |bs| <= U32_MAX && BaseOf(bs, group) == None && IndependentList(bs, cs, group)
    ensures NormalGroup(bs, cs, group)
  {
    hide BaseOf;
    hide GroupCount;
    hide WithHeader;
  }

  /** No two parts of the group have the same number. */
  ghost predicate Distinct(bs: seq<Block>, group: U64) {
    forall a, b :: 0 <= a < b < |bs| && InGroup(bs[a], group) && InGroup(bs[b], group) ==>
        bs[a].partIndex != bs[b].partIndex
  }

  // ----- in place --------------------------------------------------------------------------------------

  method GroupSeen(out: array<Block>, i: nat, group: U64) returns (seen: bool)
    requires i <= out.Length
    ensures seen <==> exists k :: 0 <= k < i && InGroup(out[k], group)
  {
    var k := 0;
    while k < i
      invariant 0 <= k <= i && forall t :: 0 <= t < k ==> !InGroup(out[t], group)
    {
      if InGroup(out[k], group) {
        return true;
      }
      k := k + 1;
    }
    seen := false;
  }

  method CountGroup(out: array<Block>, written: nat, group: U64) returns (count: nat, hasZero: bool)
    requires written <= out.Length
    ensures count == GroupCount(out[..written], group, written)
    ensures hasZero == HasNumber(out[..written], group, 0)
  {
    ghost var bs := out[..written];
    count, hasZero := 0, false;
    var j := 0;
    while j < written
      invariant 0 <= j <= written && count == GroupCount(bs, group, j)
      invariant hasZero <==> exists t :: 0 <= t < j && InGroup(bs[t], group) && bs[t].partIndex == 0
    {
      var b := out[j];
      assert b == bs[j];
      if InGroup(b, group) {
        count := count + 1;
        hasZero := hasZero || b.partIndex == 0;
      }
      j := j + 1;
    }
  }

  /** Checks the smallest and largest number, then every pair. */
  method ValidateBase(out: array<Block>, written: nat, group: U64, base: nat, count: nat) returns (ok: bool)
    requires written <= out.Length && count == GroupCount(out[..written], group, written) > 0 && written <= U32_MAX
    ensures ok <==> ValidBase(out[..written], group, base)
  {
    if base > 1 {
      return false;
    }
    ok := ValidateRange(out, written, group, base, count);
    if ok {
      ok := ValidateDistinct(out, written, group, base);
    }
  }

  method ValidateRange(out: array<Block>, written: nat, group: U64, base: nat, count: nat) returns (ok: bool)
    requires written <= out.Length && 0 < count <= U32_MAX
    ensures ok <==>
              && (forall j :: 0 <= j < written && InGroup(out[..written][j], group) ==>
                  base <= out[..written][j].partIndex < base + count)
              && HasNumber(out[..written], group, base) && HasNumber(out[..written], group, base + count - 1)
  {
    ghost var bs := out[..written];
    var minimum: int, maximum: int := U32_MAX, 0;
    ghost var some := false;
    var j := 0;
    while j < written
      invariant 0 <= j <= written
      invariant forall t :: 0 <= t < j && InGroup(bs[t], group) ==>
                  base <= bs[t].partIndex && minimum <= bs[t].partIndex - base <= maximum
      invariant some <==> exists t :: 0 <= t < j && InGroup(bs[t], group)
      invariant !some ==> minimum == U32_MAX && maximum == 0
      invariant some ==> exists t :: 0 <= t < j && InGroup(bs[t], group) && bs[t].partIndex == base + minimum
      invariant some ==> exists t :: 0 <= t < j && InGroup(bs[t], group) && bs[t].partIndex == base + maximum
    {
      var b := out[j];
      assert b == bs[j];
      if InGroup(b, group) {
        if b.partIndex < base {
          return false;
        }
        some := true;
        var index := b.partIndex - base;
        minimum := if index < minimum then index else minimum;
        maximum := if index > maximum then index else maximum;
      }
      j := j + 1;
    }
    ok := minimum == 0 && maximum + 1 == count;
  }

  /** Compares the numbers counted from the base, of which none is below it. */
  method ValidateDistinct(out: array<Block>, written: nat, group: U64, base: nat) returns (ok: bool)
    requires written <= out.Length
    requires forall j :: 0 <= j < written && InGroup(out[..written][j], group) ==> base <= out[..written][j].partIndex
    ensures ok <==> Distinct(out[..written], group)
  {
    ghost var bs := out[..written];
    var a := 0;
    while a < written
      invariant 0 <= a <= written
      invariant forall s, t :: 0 <= s < a && s < t < written && InGroup(bs[s], group) && InGroup(bs[t], group)
                               ==> bs[s].partIndex != bs[t].partIndex
    {
      assert out[a] == bs[a];
      if InGroup(out[a], group) {
        var indexA := out[a].partIndex - base;
        var b := a + 1;
        while b < written
          invariant a < b <= written
          invariant forall t :: a < t < b && InGroup(bs[t], group) ==> bs[a].partIndex != bs[t].partIndex
        {
          assert out[b] == bs[b];
          if InGroup(out[b], group) {
            var indexB := out[b].partIndex - base;
            if indexA == indexB {
              return false;
            }
          }
          b := b + 1;
        }
      }
      a := a + 1;
    }
    ok := true;
  }

  // The in-place updates replace members of one group, each by a function of itself.

  /** Every segment of the group stands alone, with its own box header. */
  method MakeIndependent(out: array<Block>, written: nat, group: U64)
    requires written <= out.Length && Sized(out[..written])
    modifies out
    ensures out[written..] == old(out[written..]) && IndependentList(old(out[..written]), out[..written], group)
  {
    ghost var bs := out[..written];
    var j := 0;
    while j < written
      invariant 0 <= j <= written && out[written..] == old(out[written..])
      invariant forall t :: 0 <= t < j ==> out[t] == if InGroup(bs[t], group) then Renumbered(bs[t], None, 0) else bs[t]
      invariant forall t :: j <= t < written ==> out[t] == bs[t]
    {
      var b := out[j];
      if InGroup(b, group) {
        assert b == bs[j];
        out[j] := b.(partIndex := 0, partCount := 1);
        var headerStart := b.outerOffset + 12;
        if b.dataOffset > headerStart {
          var length := b.dataOffset - headerStart;
          if !((length != 8 && length != 16) || b.dataOffset < length) {
            out[j] := out[j].(dataOffset := b.dataOffset - length, dataSize := b.dataSize + length);
          }
        }
      }
      j := j + 1;
    }
  }

  /** Numbers the parts from 0; the caller has checked that no number is below `base`. */
  method PatchNumbers(out: array<Block>, written: nat, group: U64, base: nat, count: U32)
    requires written <= out.Length
    requires forall j :: 0 <= j < written && InGroup(out[..written][j], group) ==> base <= out[..written][j].partIndex
    modifies out
    ensures out[written..] == old(out[written..])
            && PatchedList(old(out[..written]), out[..written], group, base, count)
  {
    ghost var bs := out[..written];
    var j := 0;
    while j < written
      invariant 0 <= j <= written && out[written..] == old(out[written..])
      invariant forall t :: 0 <= t < j ==>
                  out[t] == if InGroup(bs[t], group) then Patched(bs[t], base, count) else bs[t]
      invariant forall t :: j <= t < written ==> out[t] == bs[t]
    {
      var b := out[j];
      assert b == bs[j];
      if InGroup(b, group) {
        out[j] := b.(partIndex := b.partIndex - base, partCount := count);
      }
      j := j + 1;
    }
  }

  /** Gives the box header back to the first part, of which there is at most one. */
  method RestoreHeader(out: array<Block>, written: nat, group: U64)
    requires written <= out.Length && Sized(out[..written]) && Distinct(out[..written], group)
    modifies out
    ensures out[written..] == old(out[written..]) && RestoredList(old(out[..written]), out[..written], group)
  {
    ghost var bs := out[..written];
    var j := 0;
    while j < written
      invariant 0 <= j <= written && out[..] == old(out[..])
      invariant forall t :: 0 <= t < j ==> !(InGroup(bs[t], group) && bs[t].partIndex == 0)
    {
      var b := out[j];
      assert b == bs[j];
      if InGroup(b, group) && b.partIndex == 0 {
        var headerStart := b.outerOffset + 12;
        if b.dataOffset <= headerStart {
          return;
        }
        var length := b.dataOffset - headerStart;
        if length != 8 && length != 16 {
          return;
        }
        if b.dataOffset < length {
          return;
        }
        out[j] := b.(dataOffset := b.dataOffset - length, dataSize := b.dataSize + length);
        return;
      }
      j := j + 1;
    }
  }

  /** Normalises one group. */
  method NormalizeGroup(out: array<Block>, written: nat, group: U64)
    requires written <= out.Length && written <= U32_MAX && Sized(out[..written])
    requires GroupCount(out[..written], group, written) > 0
    modifies out
    ensures out[written..] == old(out[written..]) && NormalGroup(old(out[..written]), out[..written], group)
  {
    ghost var bs := out[..written];
    var count, hasZero := CountGroup(out, written, group);
    var base := if hasZero then 0 else 1;
    var ok := ValidateBase(out, written, group, base, count);
    if !ok {
      var alternative := if base == 0 then 1 else 0;
      ok := ValidateBase(out, written, group, alternative, count);
      if !ok {
        MakeIndependent(out, written, group);
        IndependentIsNormal(bs, out[..written], group);
        return;
      }
      base := alternative;
    }
    ValidNumbers(bs, group, base);
    PatchNumbers(out, written, group, base, count);
    ghost var cs := out[..written];
    assert BaseOf(bs, group) == Some(base);
    hide *;
    PatchedStaysSized(bs, cs, group, base, count);
    PatchedStaysDistinct(bs, cs, group, base, count);
    RestoreHeader(out, written, group);
    PatchedAndRestored(bs, cs, out[..written], group, base, count);
  }

  lemma ValidNumbers(bs: seq<Block>, group: U64, base: nat)
    requires ValidBase(bs, group, base)
    ensures (forall j :: 0 <= j < |bs| && InGroup(bs[j], group) ==> base <= bs[j].partIndex) && Distinct(bs, group)
  {
  }

  /** A block of the group has been met before position `i`. */
  ghost predicate Met(bs: seq<Block>, i: nat, group: U64)
    requires i <= |bs|
  {
    exists k :: 0 <= k < i && InGroup(bs[k], group)
  }

  /** The list after the groups met before position `i` are normalised. */
  ghost function Partly(bs: seq<Block>, i: nat, j: nat): Block
    requires i <= |bs| <= U32_MAX && Sized(bs) && j < |bs|
  {
    if IsApp11(bs[j]) && Met(bs, i, bs[j].group) then NormalBlock(bs, j) else bs[j]
  }

  /** Normalisation marks a block by a part count and leaves it in its group. */
  lemma NormalBlockMarks(bs: seq<Block>, j: nat)
    requires j < |bs| <= U32_MAX && Sized(bs) && IsApp11(bs[j])
    ensures var b := NormalBlock(bs, j); IsApp11(b) && b.group == bs[j].group && b.partCount > 0
  {
    CountPositive(bs, bs[j].group, j, |bs|);
  }

  lemma {:induction false} CountPositive(bs: seq<Block>, group: U64, j: nat, n: nat)
    requires j < n <= |bs| && InGroup(bs[j], group)
    ensures GroupCount(bs, group, n) > 0
  {
    if j < n - 1 {
      CountPositive(bs, group, j, n - 1);
    }
  }

  lemma NormalBlockStaysSized(bs: seq<Block>, j: nat)
    requires j < |bs| <= U32_MAX && InFiles(bs)
    ensures NormalBlock(bs, j).dataSize <= U64_MAX - 16
  {
  }

  /** What a group becomes depends on its own members only. */
  lemma SameNormal(bs: seq<Block>, cs: seq<Block>, group: U64, j: nat)
    requires j < |bs| <= U32_MAX && Sized(bs) && Sized(cs) && SameGroup(bs, cs, group) && InGroup(bs[j], group)
    ensures NormalBlock(bs, j) == NormalBlock(cs, j)
  {
    SameCount(bs, cs, group, |bs|);
    SameNumber(bs, cs, group, 0);
    SameValidity(bs, cs, group, 0);
    SameValidity(bs, cs, group, 1);
    hide ValidBase;
    hide HasNumber;
    hide GroupCount;
  }

  lemma PartlySized(bs: seq<Block>, i: nat)
    requires i <= |bs| <= U32_MAX && InFiles(bs)
    ensures forall j :: 0 <= j < |bs| ==> Partly(bs, i, j).dataSize <= U64_MAX - 16
  {
    forall j | 0 <= j < |bs| ensures Partly(bs, i, j).dataSize <= U64_MAX - 16 {
      NormalBlockStaysSized(bs, j);
    }
  }

  /** The members of a group not yet met are untouched, and nothing else has joined it. */
  lemma UnmetGroupUntouched(bs: seq<Block>, cs: seq<Block>, i: nat, group: U64)
    requires i <= |bs| == |cs| <= U32_MAX && InFiles(bs) && !Met(bs, i, group)
    requires forall j :: 0 <= j < |bs| ==> cs[j] == Partly(bs, i, j)
    ensures SameGroup(bs, cs, group)
  {
    forall j | 0 <= j < |bs|
      ensures (InGroup(bs[j], group) <==> InGroup(cs[j], group)) && (InGroup(bs[j], group) ==> bs[j] == cs[j])
    {
      if IsApp11(bs[j]) {
        NormalBlockMarks(bs, j);
      }
    }
  }

  /** One more block met: its group, if new, is to be normalised; all other blocks stay. */
  lemma MetNext(bs: seq<Block>, i: nat, j: nat)
    requires i < |bs| <= U32_MAX && InFiles(bs) && j < |bs|
    ensures Partly(bs, i + 1, j)
            == if IsApp11(bs[i]) && InGroup(bs[j], bs[i].group) then NormalBlock(bs, j) else Partly(bs, i, j)
  {
    if IsApp11(bs[j]) {
      var g := bs[j].group;
      if Met(bs, i, g) {
        var k :| 0 <= k < i && InGroup(bs[k], g);
        assert k < i + 1;
      }
      assert InGroup(bs[i], g) ==> Met(bs, i + 1, g);
    }
  }

  /** Normalisation as the scanners run it, over the blocks they have written. */
  method NormalizeApp11(out: array<Block>, written: nat)
    requires written <= out.Length && written <= U32_MAX && InFiles(out[..written])
    requires forall j :: 0 <= j < written && IsApp11(out[j]) ==> out[j].partCount == 0
    modifies out
    ensures out[written..] == old(out[written..])
    ensures Sized(old(out[..written])) && out[..written] == Normalized(old(out[..written]))
  {
    ghost var bs := out[..written];
    var i := 0;
    while i < written
      invariant 0 <= i <= written && out[written..] == old(out[written..])
      invariant forall j :: 0 <= j < written ==> out[j] == Partly(bs, i, j)
    {
      NormalizeAt(out, written, i, bs);
      i := i + 1;
    }
  }

  method NormalizeAt(out: array<Block>, written: nat, i: nat, ghost bs: seq<Block>)
    requires i < written <= out.Length && written == |bs| <= U32_MAX && InFiles(bs)
    requires forall j :: 0 <= j < written && IsApp11(bs[j]) ==> bs[j].partCount == 0
    requires forall j :: 0 <= j < written ==> out[j] == Partly(bs, i, j)
    modifies out
    ensures out[written..] == old(out[written..])
    ensures forall j :: 0 <= j < written ==> out[j] == Partly(bs, i + 1, j)
  {
    var seed := out[i];
    ghost var cs := out[..written];
    SeedTells(bs, i);
    PartlySized(bs, i);
    forall j | 0 <= j < written ensures Partly(bs, i + 1, j) == if IsApp11(bs[i])
        && InGroup(bs[j], bs[i].group) then NormalBlock(bs, j) else cs[j] {
      MetNext(bs, i, j);
    }
    if !IsApp11(seed) {
      return;
    }
    if seed.partCount != 0 {
      SeenAlready(bs, cs, i);
      return;
    }
    UnmetGroupUntouched(bs, cs, i, seed.group);
    hide Met;
    hide NormalBlock;
    var seen := GroupSeen(out, i, seed.group);
    if seen {
      return;
    }
    CountPositive(cs, seed.group, i, written);
    NormalizeGroup(out, written, seed.group);
    forall j | 0 <= j < written && InGroup(bs[j], seed.group) ensures out[j] == NormalBlock(bs, j) {
      SameNormal(bs, cs, seed.group, j);
    }
  }

  /** The part count of a segment tells whether its group was met. */
  lemma SeedTells(bs: seq<Block>, i: nat)
    requires i < |bs| <= U32_MAX && InFiles(bs)
    requires IsApp11(bs[i]) ==> bs[i].partCount == 0
    ensures IsApp11(Partly(bs, i, i)) == IsApp11(bs[i])
    ensures IsApp11(bs[i]) ==>
              && Partly(bs, i, i).group == bs[i].group
              && (Partly(bs, i, i).partCount != 0 <==> Met(bs, i, bs[i].group))
  {
    if IsApp11(bs[i]) {
      NormalBlockMarks(bs, i);
    }
  }

  lemma SeenAlready(bs: seq<Block>, cs: seq<Block>, i: nat)
    requires i < |bs| == |cs| <= U32_MAX && InFiles(bs) && IsApp11(bs[i]) && Met(bs, i, bs[i].group)
    requires forall j :: 0 <= j < |bs| ==> cs[j] == Partly(bs, i, j)
    ensures forall j :: 0 <= j < |bs| && InGroup(bs[j], bs[i].group) ==> cs[j] == NormalBlock(bs, j)
  {
  }
}
