/**
 * The normalisation of JUMBF segments that the positional JPEG scanner has of its own. It compares raw
 * numbers, knows no bound on the base, and nests its conditions; it ends at the same normal form.
 */
module PositionalGroups {
  import opened Bytes
  import opened Blocks
  import opened JumbfGroups

  method GroupBefore(out: array<Block>, i: nat, group: U64) returns (seen: bool)
    requires i <= out.Length
    ensures seen <==> exists k :: 0 <= k < i && InGroup(out[k], group)
  {
    seen := false;
    var k := 0;
    while k < i
      invariant 0 <= k <= i && !seen && forall t :: 0 <= t < k ==> !InGroup(out[t], group)
    {
      var previous := out[k];
      if previous.format == Jpeg && previous.kind == Jumbf && previous.id == APP11 && previous.group == group {
        seen := true;
        break;
      }
      k := k + 1;
    }
  }

  method CountParts(out: array<Block>, written: nat, group: U64) returns (count: nat, hasZero: bool)
    requires written <= out.Length
    ensures count == GroupCount(out[..written], group, written)
    ensures hasZero == HasNumber(out[..written], group, 0)
  {
    ghost var bs := out[..written];
    count, hasZero := 0, false;
    for j := 0 to written
      invariant count == GroupCount(bs, group, j)
      invariant hasZero <==> exists t :: 0 <= t < j && InGroup(bs[t], group) && bs[t].partIndex == 0
    {
      var block := out[j];
      assert block == bs[j];
      if InGroup(block, group) {
        count := count + 1;
        hasZero := hasZero || block.partIndex == 0;
      }
    }
  }

  /** The smallest and the largest number must be the first and the last one; then every pair is compared. */
  method BaseIsValid(out: array<Block>, written: nat, group: U64, base: nat, count: nat) returns (ok: bool)
    requires written <= out.Length && written <= U32_MAX && base <= 1
    requires count == GroupCount(out[..written], group, written) > 0
    ensures ok <==> ValidBase(out[..written], group, base)
  {
    ghost var bs := out[..written];
    var minimum: int, maximum: int := U32_MAX, 0;
    ghost var some := false;
    for j := 0 to written
      invariant forall t :: 0 <= t < j && InGroup(bs[t], group) ==>
                  base <= bs[t].partIndex && minimum <= bs[t].partIndex - base <= maximum
      invariant some <==> exists t :: 0 <= t < j && InGroup(bs[t], group)
      invariant !some ==> minimum == U32_MAX && maximum == 0
      invariant some ==> exists t :: 0 <= t < j && InGroup(bs[t], group) && bs[t].partIndex == base + minimum
      invariant some ==> exists t :: 0 <= t < j && InGroup(bs[t], group) && bs[t].partIndex == base + maximum
    {
      var block := out[j];
      assert block == bs[j];
      if InGroup(block, group) {
        if block.partIndex < base {
          return false;
        }
        some := true;
        var index := block.partIndex - base;
        minimum := if index < minimum then index else minimum;
        maximum := if index > maximum then index else maximum;
      }
    }
    if minimum != 0 || maximum + 1 != count {
      return false;
    }
    assert HasNumber(bs, group, base) && HasNumber(bs, group, base + count - 1);
    ok := NumbersDiffer(out, written, group);
  }

  /** Compares the numbers as they were read. */
  method NumbersDiffer(out: array<Block>, written: nat, group: U64) returns (ok: bool)
    requires written <= out.Length
    ensures ok <==> Distinct(out[..written], group)
  {
    ghost var bs := out[..written];
    for a := 0 to written
      invariant forall s, t :: 0 <= s < a && s < t < written && InGroup(bs[s], group) && InGroup(bs[t], group)
                               ==> bs[s].partIndex != bs[t].partIndex
    {
      assert out[a] == bs[a];
      if InGroup(out[a], group) {
        for b := a + 1 to written
          invariant forall t :: a < t < b && InGroup(bs[t], group) ==> bs[a].partIndex != bs[t].partIndex
        {
          assert out[b] == bs[b];
          if InGroup(out[b], group) && out[a].partIndex == out[b].partIndex {
            return false;
          }
        }
      }
    }
    ok := true;
  }

  method StandAlone(out: array<Block>, written: nat, group: U64)
    requires written <= out.Length && Sized(out[..written])
    modifies out
    ensures out[written..] == old(out[written..]) && IndependentList(old(out[..written]), out[..written], group)
  {
    ghost var bs := out[..written];
    for j := 0 to written
      invariant out[written..] == old(out[written..])
      invariant forall t :: 0 <= t < j ==> out[t] == if InGroup(bs[t], group) then Renumbered(bs[t], None, 0) else bs[t]
      invariant forall t :: j <= t < written ==> out[t] == bs[t]
    {
      var block := out[j];
      assert block == bs[j];
      if InGroup(block, group) {
        block := block.(partIndex := 0, partCount := 1);
        var headerStart := block.outerOffset + 12;
        if block.dataOffset > headerStart {
          var headerSize := block.dataOffset - headerStart;
          if (headerSize == 8 || headerSize == 16) && block.dataOffset >= headerSize {
            block := block.(dataOffset := block.dataOffset - headerSize, dataSize := block.dataSize + headerSize);
          }
        }
        out[j] := block;
      }
    }
  }

  method SubtractBase(out: array<Block>, written: nat, group: U64, base: nat, count: U32)
    requires written <= out.Length
    requires forall j :: 0 <= j < written && InGroup(out[..written][j], group) ==> base <= out[..written][j].partIndex
    modifies out
    ensures out[written..] == old(out[written..])
            && PatchedList(old(out[..written]), out[..written], group, base, count)
  {
    ghost var bs := out[..written];
    for j := 0 to written
      invariant out[written..] == old(out[written..])
      invariant forall t :: 0 <= t < j ==>
                  out[t] == if InGroup(bs[t], group) then Patched(bs[t], base, count) else bs[t]
      invariant forall t :: j <= t < written ==> out[t] == bs[t]
    {
      var block := out[j];
      assert block == bs[j];
      if InGroup(block, group) {
        out[j] := block.(partIndex := block.partIndex - base, partCount := count);
      }
    }
  }

  /** The first part that is met ends the search, whether it gets its header back or not. */
  method RestoreFirstHeader(out: array<Block>, written: nat, group: U64)
    requires written <= out.Length && Sized(out[..written]) && Distinct(out[..written], group)
    modifies out
    ensures out[written..] == old(out[written..]) && RestoredList(old(out[..written]), out[..written], group)
  {
    ghost var bs := out[..written];
    for j := 0 to written
      invariant out[..] == old(out[..])
      invariant forall t :: 0 <= t < j ==> !(InGroup(bs[t], group) && bs[t].partIndex == 0)
    {
      var block := out[j];
      assert block == bs[j];
      if InGroup(block, group) && block.partIndex == 0 {
        var headerStart := block.outerOffset + 12;
        if block.dataOffset > headerStart {
          var headerSize := block.dataOffset - headerStart;
          if (headerSize == 8 || headerSize == 16) && block.dataOffset >= headerSize {
            out[j] := block.(dataOffset := block.dataOffset - headerSize, dataSize := block.dataSize + headerSize);
          }
        }
        return;
      }
    }
  }

  method NormalizePositionalGroup(out: array<Block>, written: nat, group: U64)
    requires written <= out.Length && written <= U32_MAX && Sized(out[..written])
    requires GroupCount(out[..written], group, written) > 0
    modifies out
    ensures out[written..] == old(out[written..]) && NormalGroup(old(out[..written]), out[..written], group)
  {
    ghost var bs := out[..written];
    var count, hasZero := CountParts(out, written, group);
    var base := if hasZero then 0 else 1;
    var ok := BaseIsValid(out, written, group, base, count);
    if !ok {
      var alternative := if base == 0 then 1 else 0;
      ok := BaseIsValid(out, written, group, alternative, count);
      if !ok {
        StandAlone(out, written, group);
        IndependentIsNormal(bs, out[..written], group);
        return;
      }
      base := alternative;
    }
    ValidNumbers(bs, group, base);
    SubtractBase(out, written, group, base, count);
    ghost var cs := out[..written];
    assert BaseOf(bs, group) == Some(base);
    hide *;
    PatchedStaysSized(bs, cs, group, base, count);
    PatchedStaysDistinct(bs, cs, group, base, count);
    RestoreFirstHeader(out, written, group);
    PatchedAndRestored(bs, cs, out[..written], group, base, count);
  }

  /** In place, every block that the positional scanner has written becomes its normal form. */
  method NormalizePositional(out: array<Block>, written: nat)
    requires written <= out.Length && written <= U32_MAX && InFiles(out[..written])
    requires forall j :: 0 <= j < written && IsApp11(out[j]) ==> out[j].partCount == 0
    modifies out
    ensures out[written..] == old(out[written..])
    ensures Sized(old(out[..written])) && out[..written] == Normalized(old(out[..written]))
  {
    ghost var bs := out[..written];
    for i := 0 to written
      invariant out[written..] == old(out[written..])
      invariant forall j :: 0 <= j < written ==> out[j] == Partly(bs, i, j)
    {
      NormalizePositionalAt(out, written, i, bs);
    }
  }

  method NormalizePositionalAt(out: array<Block>, written: nat, i: nat, ghost bs: seq<Block>)
    requires i < written <= out.Length && written == |bs| <= U32_MAX && InFiles(bs)
    requires forall j :: 0 <= j < written && IsApp11(bs[j]) ==> bs[j].partCount == 0
    requires forall j :: 0 <= j < written ==> out[j] == Partly(bs, i, j)
    modifies out
    ensures out[written..] == old(out[written..])
    ensures forall j :: 0 <= j < written ==> out[j] == Partly(bs, i + 1, j)
  {
    var seed := out[i];
    ghost var cs := out[..written];
    SeedTells(bs, i);
    PartlySized(bs, i);
    forall j | 0 <= j < written
      ensures Partly(bs, i + 1, j) == if IsApp11(bs[i])
              && InGroup(bs[j], bs[i].group) then NormalBlock(bs, j) else cs[j]
    {
      MetNext(bs, i, j);
    }
    if !IsApp11(seed) || seed.partCount != 0 {
      if IsApp11(seed) {
        SeenAlready(bs, cs, i);
      }
      return;
    }
    UnmetGroupUntouched(bs, cs, i, seed.group);
    hide Met;
    hide NormalBlock;
    var seen := GroupBefore(out, i, seed.group);
    if seen {
      return;
    }
    CountPositive(cs, seed.group, i, written);
    NormalizePositionalGroup(out, written, seed.group);
    forall j | 0 <= j < written && InGroup(bs[j], seed.group) ensures out[j] == NormalBlock(bs, j) {
      SameNormal(bs, cs, seed.group, j);
    }
  }
}
