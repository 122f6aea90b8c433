/**
 * Splitting a JUMBF box over JPEG segments and getting it back: a writer of such files, and the proof
 * that scanning and extracting undo it.
 */
module JumbfRoundTrip {
  import opened Bytes
  import opened Blocks
  import opened BlockSinks
  import opened JpegSegments
  import opened JpegScan
  import opened JumbfGroups
  import opened JumbfJoin
  import PS = PayloadSpec

  // ----- writing segments and walking over them -------------------------------------------------------

  /** A marker with a payload. */
  datatype Frame = Frame(low: Byte, payload: seq<Byte>)

  /** The marker is followed by a length, and the payload fits it. */
  predicate ProperFrame(f: Frame) {
    && f.low != 0xFF && f.low != 0xD9 && f.low != 0xDA && !(0xD0 <= f.low <= 0xD7) && f.low != 0x01
    && |f.payload| <= 65533
  }

  function Encode(f: Frame): seq<Byte> { [0xFF, f.low] + BeBytes(|f.payload| + 2, 2) + f.payload }

  function EncodeAll(frames: seq<Frame>): seq<Byte> {
    if frames == [] then [] else Encode(frames[0]) + EncodeAll(frames[1..])
  }

  /** The rest of the file: the end of the image or the start of the scan, and whatever follows. */
  predicate ProperTail(tail: seq<Byte>) {
    |tail| >= 2 && tail[0] == 0xFF && (tail[1] == 0xD9 || tail[1] == 0xDA)
  }

  function WriteFile(frames: seq<Frame>, tail: seq<Byte>): seq<Byte> {
    [0xFF, 0xD8] + EncodeAll(frames) + tail
  }

  /** Segment `s` of `file` is the frame. */
  ghost predicate IsFrame(file: seq<Byte>, s: Segment, f: Frame) {
    && InBounds(file, s) && s.marker == 0xFF00 + f.low as int && s.payloadSize == |f.payload|
    && file[s.payloadOffset..s.payloadOffset + s.payloadSize] == f.payload
  }

  lemma EncodedAt(file: seq<Byte>, pos: nat, f: Frame, rest: seq<Byte>)
    requires pos <= |file| && file[pos..] == Encode(f) + rest
    ensures pos + 4 + |f.payload| <= |file| && file[pos] == 0xFF && file[pos + 1] == f.low
    ensures file[pos + 2..pos + 4] == BeBytes(|f.payload| + 2, 2)
    ensures file[pos + 4..pos + 4 + |f.payload|] == f.payload && file[pos + 4 + |f.payload|..] == rest
  {
    var code := Encode(f);
    assert |code| == |f.payload| + 4;
    assert forall i :: 0 <= i < |code| ==> file[pos + i] == file[pos..][i] == code[i];
    assert file[pos + |code|..] == file[pos..][|code|..] == rest;
  }

  lemma StepFindsFrame(file: seq<Byte>, pos: nat, f: Frame, rest: seq<Byte>)
    requires pos <= |file| && ProperFrame(f) && file[pos..] == Encode(f) + rest
    ensures pos + 2 <= |file| && StepAt(file, pos).Found?
    ensures var s := StepAt(file, pos).segment;
            && IsFrame(file, s, f) && file[s.payloadOffset + s.payloadSize..] == rest
  {
    EncodedAt(file, pos, f, rest);
    hide Encode;
    assert SkipFill(file, pos + 1) == pos + 1;
    assert SkipFill(file, pos) == pos + 1;
    assert Pow256(2) == 0x10000;
    BeRoundTrip(|f.payload| + 2, 2);
    hide BeBytes;
    hide BeValue;
    hide SkipFill;
  }

  lemma WalkEnds(file: seq<Byte>, pos: nat, tail: seq<Byte>)
    requires pos <= |file| && ProperTail(tail) && file[pos..] == tail
    ensures Walk(file, pos) == ([], true)
  {
    assert file[pos] == file[pos..][0] && file[pos + 1] == file[pos..][1];
    assert SkipFill(file, pos + 1) == pos + 1;
    assert SkipFill(file, pos) == pos + 1;
  }

  ghost predicate AreFrames(file: seq<Byte>, segments: seq<Segment>, frames: seq<Frame>) {
    |segments| == |frames| && forall i :: 0 <= i < |frames| ==> IsFrame(file, segments[i], frames[i])
  }

  lemma OneMoreFrame(file: seq<Byte>, s: Segment, segments: seq<Segment>, frames: seq<Frame>)
    requires frames != [] && IsFrame(file, s, frames[0]) && AreFrames(file, segments, frames[1..])
    ensures AreFrames(file, [s] + segments, frames)
  {
    hide IsFrame;
    forall i | 0 < i < |frames| ensures IsFrame(file, ([s] + segments)[i], frames[i]) {
      assert frames[i] == frames[1..][i - 1] && ([s] + segments)[i] == segments[i - 1];
    }
  }

  /** The walk over a written file finds exactly the segments that were written, and accepts the file. */
  lemma {:induction false} WalkFindsFrames(file: seq<Byte>, pos: nat, frames: seq<Frame>, tail: seq<Byte>)
    requires pos <= |file| && ProperTail(tail) && file[pos..] == EncodeAll(frames) + tail
    requires forall i :: 0 <= i < |frames| ==> ProperFrame(frames[i])
    ensures Walk(file, pos).1 && AreFrames(file, Walk(file, pos).0, frames)
    decreases |frames|
  {
    hide IsFrame;
    hide StepAt;
    hide Encode;
    hide ProperFrame;
    if frames == [] {
      hide Walk;
      WalkEnds(file, pos, tail);
    } else {
      var rest := EncodeAll(frames[1..]) + tail;
      assert file[pos..] == Encode(frames[0]) + rest;
      StepFindsFrame(file, pos, frames[0], rest);
      hide EncodeAll;
      var s := StepAt(file, pos).segment;
      WalkFindsFrames(file, s.payloadOffset + s.payloadSize, frames[1..], tail);
      OneMoreFrame(file, s, Walk(file, s.payloadOffset + s.payloadSize).0, frames);
      hide AreFrames;
    }
  }

  // ----- segments of a cut among other segments -----------------------------------------------------------

  /** A segment of the written file: segment `number` of the cut, or any other frame. */
  datatype Item = Part(number: U32, instance: seq<Byte>) | Foreign(frame: Frame)

  /** The header of a box that the scanner can read: with a 32-bit size, or with a 64-bit one. */
  ghost predicate ReadableHeader(header: seq<Byte>) {
    || (|header| == 8 && BeValue(header[0..4]) >= 8)
    || (|header| == 16 && BeValue(header[0..4]) == 1 && BeValue(header[8..16]) >= 16)
  }

  predicate InCut(number: int, cut: Cut) { cut.base <= number < cut.base + |cut.chunks| }

  function FrameOf(item: Item, cut: Cut): Frame
    requires item.Part? ==> InCut(item.number, cut)
  {
    match item
    case Foreign(frame) => frame
    case Part(number, instance) =>
      Frame(0xEB, [0x4A, 0x50] + instance + BeBytes(number, 4) + cut.header + cut.chunks[number - cut.base])
  }

  /** The group that the scanner gives to segments with this box header. */
  function GroupOfHeader(header: seq<Byte>): U64 {
    var hash := Fnv1a64(header);
    if hash == 0 then 1 else hash
  }

  /** The head of a segment that may belong to a box. */
  function HeadOf(p: seq<Byte>): (head: seq<Byte>)
    requires |p| >= 16
  {
    p[..if |p| >= 24 then 24 else 16]
  }

  predicate StartsJumbf(p: seq<Byte>) { |p| >= 16 && p[0] == 0x4A && p[1] == 0x50 }

  /** The group of a frame that is a JUMBF segment. */
  function GroupOfFrame(f: Frame): Option<U64>
    requires |f.payload| <= 65533
  {
    var n := |f.payload|;
    if f.low == 0xEB && StartsJumbf(f.payload) then
      match JumbfPart(Segment(0xFFEB, 0, n + 4, 4, n), HeadOf(f.payload))
      case None => None
      case Some(b) => Some(b.group)
    else None
  }

  /** A segment of the cut, or a frame whose box header does not hash to the group of the cut. */
  ghost predicate ProperItem(item: Item, cut: Cut) {
    && (item.Part? ==> InCut(item.number, cut) && |item.instance| == 2)
    && ProperFrame(FrameOf(item, cut))
    && (item.Foreign? ==> GroupOfFrame(item.frame) != Some(GroupOfHeader(cut.header)))
  }

  predicate PartsInCut(items: seq<Item>, cut: Cut) {
    forall i :: 0 <= i < |items| && items[i].Part? ==> InCut(items[i].number, cut)
  }

  function Frames(items: seq<Item>, cut: Cut): (r: seq<Frame>)
    requires PartsInCut(items, cut)
    ensures |r| == |items| && forall i :: 0 <= i < |r| ==> r[i] == FrameOf(items[i], cut)
  {
    seq(|items|, i requires 0 <= i < |items| => FrameOf(items[i], cut))
  }

  /** The number of segments of the cut among the first `n` items. */
  function PartCount(items: seq<Item>, n: nat): (c: nat)
    requires n <= |items|
    ensures c <= n
  {
    if n == 0 then 0 else PartCount(items, n - 1) + if items[n - 1].Part? then 1 else 0
  }

  ghost predicate DistinctNumbers(items: seq<Item>) {
    forall i, j :: 0 <= i < j < |items| && items[i].Part? && items[j].Part? ==> items[i].number != items[j].number
  }

  /** Every segment of the cut is written once, in any order, among any other segments. */
  ghost predicate Writable(items: seq<Item>, cut: Cut) {
    && ValidCut(cut) && ReadableHeader(cut.header) && PartsInCut(items, cut)
    && (forall i :: 0 <= i < |items| ==> ProperItem(items[i], cut))
    && PartCount(items, |items|) == |cut.chunks| && DistinctNumbers(items)
  }

  // ----- every segment of the cut occurs -----------------------------------------------------------------

  ghost function NumberSet(items: seq<Item>, n: nat): set<int>
    requires n <= |items|
  {
    if n == 0 then {} else NumberSet(items, n - 1) + if items[n - 1].Part? then {items[n - 1].number} else {}
  }

  predicate Occurs(items: seq<Item>, n: nat, number: int)
    requires n <= |items|
  {
    exists i :: 0 <= i < n && items[i].Part? && items[i].number == number
  }

  lemma {:induction false} NumberSetMembers(items: seq<Item>, n: nat)
    requires n <= |items| && DistinctNumbers(items)
    ensures |NumberSet(items, n)| == PartCount(items, n)
    ensures forall number :: number in NumberSet(items, n) <==> Occurs(items, n, number)
  {
    if n > 0 {
      NumberSetMembers(items, n - 1);
      if items[n - 1].Part? {
        assert !Occurs(items, n - 1, items[n - 1].number);
      }
      assert forall number :: Occurs(items, n, number)
                              <==>
                                Occurs(items, n - 1, number)
                                || (items[n - 1].Part? && items[n - 1].number == number);
    }
  }

  ghost function Interval(base: int, n: nat): (r: set<int>)
    ensures |r| == n && forall x :: x in r <==> base <= x < base + n
  {
    if n == 0 then {} else Interval(base, n - 1) + {base + n - 1}
  }

  lemma SubsetOfSameSize(a: set<int>, b: set<int>)
    requires a <= b && |a| == |b|
    ensures a == b
  {
    assert b == a + (b - a);
    assert |b| == |a| + |b - a|;
  }

  /** As many distinct numbers as the cut has segments, all of them in range: none is missing. */
  lemma AllOccur(items: seq<Item>, cut: Cut, number: int)
    requires Writable(items, cut) && InCut(number, cut)
    ensures Occurs(items, |items|, number)
  {
    hide ProperItem;
    hide ReadableHeader;
    var n := |items|;
    NumberSetMembers(items, n);
    var all := Interval(cut.base, |cut.chunks|);
    forall x | x in NumberSet(items, n) ensures x in all {
      assert Occurs(items, n, x);
    }
    SubsetOfSameSize(NumberSet(items, n), all);
  }

  // ----- what the scanner makes of each item ----------------------------------------------------------------

  /** What was found for an item: for a segment of the cut its block, for a foreign one nothing of the group. */
  ghost predicate FoundAs(file: seq<Byte>, found: Option<Block>, item: Item, cut: Cut) {
    if item.Part? then
      && found.Some? && InGroup(found.value, GroupOfHeader(cut.header)) && found.value.partIndex == item.number
      && IsSegment(file, found.value, cut)
    else found.Some? ==> !InGroup(found.value, GroupOfHeader(cut.header))
  }

  /** The fields of the payload of a segment of the cut. */
  lemma PartPayload(number: U32, instance: seq<Byte>, cut: Cut)
    requires ReadableHeader(cut.header) && InCut(number, cut) && |instance| == 2
    ensures var p := FrameOf(Part(number, instance), cut).payload;
            var h := |cut.header|;
            && |p| == 8 + h + |cut.chunks[number - cut.base]| && p[0] == 0x4A && p[1] == 0x50
            && p[4..8] == BeBytes(number, 4) && p[8..8 + h] == cut.header && p[8 + h..] == cut.chunks[number - cut.base]
  {
    var start := [0x4A, 0x50] + instance;
    var p := FrameOf(Part(number, instance), cut).payload;
    assert p == start + (BeBytes(number, 4) + (cut.header + cut.chunks[number - cut.base]));
  }

  lemma SlicesOfPayload(file: seq<Byte>, off: nat, payload: seq<Byte>, a: nat, b: nat)
    requires off + |payload| <= |file| && file[off..off + |payload|] == payload && a <= b <= |payload|
    ensures file[off + a..off + b] == payload[a..b]
  {
    var whole := file[off..off + |payload|];
    assert forall i :: 0 <= i < |payload| ==> file[off + i] == whole[i];
    assert forall i :: 0 <= i < b - a ==> file[off + a..off + b][i] == whole[a + i] == payload[a..b][i];
  }

  /** Block `b` is segment `s` read as one with this number and box header. */
  predicate ReadAs(s: Segment, b: Block, number: U32, header: seq<Byte>) {
    && b.group == GroupOfHeader(header) && b.partIndex == number && b.outerOffset == s.totalOffset
    && b.dataOffset == s.payloadOffset + 8 + |header| && b.dataSize == s.payloadSize - (8 + |header|)
    && b.format == Jpeg && b.kind == Jumbf && b.id == s.marker
    && b.logicalOffset == 0 && b.chunking == Raw && b.compression == Uncompressed
    // the type of the box, and its size in either form
    && |header| >= 8 && b.auxU32 == BeValue(header[4..8])
    && b.logicalSize == BeValue(if |header| == 16 then header[8..16] else header[0..4])
  }

  /** The number and the group that the scanner reads from the head of a segment of the cut. */
  lemma HeadIsRead(s: Segment, head: seq<Byte>, number: U32, header: seq<Byte>)
    requires ReadableHeader(header) && 8 + |header| <= s.payloadSize
             && |head| == (if s.payloadSize >= 24 then 24 else 16)
    requires s.payloadOffset + s.payloadSize <= SPAN_MAX && s.totalOffset <= SPAN_MAX && s.totalSize <= SPAN_MAX
    requires head[4..8] == BeBytes(number, 4) && head[8..8 + |header|] == header
    ensures JumbfPart(s, head).Some? && ReadAs(s, JumbfPart(s, head).value, number, header)
  {
    assert Pow256(4) == 0x1_0000_0000;
    BeRoundTrip(number, 4);
    SliceOfSlice(head, 8, |header|, 0, 4);
    SliceOfSlice(head, 8, |header|, 4, 4);
    if |header| == 16 {
      SliceOfSlice(head, 8, 16, 8, 8);
    }
    hide BeValue;
    hide BeBytes;
    hide Fnv;
  }

  /** A segment 11 with the common identifier is classified by the head of its payload. */
  lemma ClassifiedByHead(file: seq<Byte>, s: Segment, p: seq<Byte>)
    requires Scannable(file, s) && s.marker == 0xFFEB && s.payloadSize == |p|
    requires file[s.payloadOffset..s.payloadOffset + s.payloadSize] == p
    ensures Classify(file, s) == if StartsJumbf(p) then JumbfPart(s, HeadOf(p)) else None
  {
    hide JumbfPart;
    var off := s.payloadOffset;
    if |p| >= 16 {
      var length := if |p| >= 24 then 24 else 16;
      SlicesOfPayload(file, off, p, 0, length);
      SlicesOfPayload(file, off, p, 0, 1);
      SlicesOfPayload(file, off, p, 1, 2);
      assert p[0..length] == p[..length];
      assert file[off] == p[0] && file[off + 1] == p[1];
    }
  }

  lemma PartIsRead(file: seq<Byte>, s: Segment, item: Item, cut: Cut)
    requires |file| <= SPAN_MAX && ReadableHeader(cut.header) && item.Part? && ProperItem(item, cut)
    requires IsFrame(file, s, FrameOf(item, cut))
    ensures Classify(file, s).Some? && ReadAs(s, Classify(file, s).value, item.number, cut.header)
  {
    var p, h := FrameOf(item, cut).payload, |cut.header|;
    PartPayload(item.number, item.instance, cut);
    ClassifiedByHead(file, s, p);
    hide Classify;
    hide FrameOf;
    hide ReadableHeader;
    hide JumbfPart;
    hide ReadAs;
    var head := p[..if |p| >= 24 then 24 else 16];
    assert head[4..8] == p[4..8] && head[8..8 + h] == p[8..8 + h];
    HeadIsRead(s, head, item.number, cut.header);
  }

  lemma ReadIsSegment(file: seq<Byte>, s: Segment, p: seq<Byte>, b: Block, number: U32, cut: Cut)
    requires Scannable(file, s) && s.marker == 0xFFEB && s.payloadSize == |p|
    requires file[s.payloadOffset..s.payloadOffset + s.payloadSize] == p
    requires InCut(number, cut) && ReadAs(s, b, number, cut.header)
             && |p| == 8 + |cut.header| + |cut.chunks[number - cut.base]|
    requires p[8..8 + |cut.header|] == cut.header && p[8 + |cut.header|..] == cut.chunks[number - cut.base]
    ensures IsSegment(file, b, cut) && InGroup(b, GroupOfHeader(cut.header)) && b.partIndex == number
  {
    var h := |cut.header|;
    hide GroupOfHeader;
    SlicesOfPayload(file, s.payloadOffset, p, 8, 8 + h);
    SlicesOfPayload(file, s.payloadOffset, p, 8 + h, |p|);
    assert p[8 + h..|p|] == p[8 + h..];
  }

  lemma PartIsFound(file: seq<Byte>, s: Segment, item: Item, cut: Cut)
    requires |file| <= SPAN_MAX && ReadableHeader(cut.header) && item.Part? && ProperItem(item, cut)
    requires IsFrame(file, s, FrameOf(item, cut))
    ensures FoundAs(file, Classify(file, s), item, cut)
  {
    hide *;
    PartIsProper(item, cut);
    PartIsFramed(file, s, item, cut);
    PartIsRead(file, s, item, cut);
    PartPayload(item.number, item.instance, cut);
    ReadIsSegment(file, s, FrameOf(item, cut).payload, Classify(file, s).value, item.number, cut);
    PartFound(file, Classify(file, s), item, cut);
  }

  lemma PartIsProper(item: Item, cut: Cut)
    requires item.Part? && ProperItem(item, cut)
    ensures item == Part(item.number, item.instance) && InCut(item.number, cut) && |item.instance| == 2
  {
  }

  lemma PartIsFramed(file: seq<Byte>, s: Segment, item: Item, cut: Cut)
    requires item.Part? && ReadableHeader(cut.header) && ProperItem(item, cut) && |file| <= SPAN_MAX
    requires IsFrame(file, s, FrameOf(item, cut))
    ensures Scannable(file, s) && s.marker == 0xFFEB && s.payloadSize == |FrameOf(item, cut).payload|
    ensures file[s.payloadOffset..s.payloadOffset + s.payloadSize] == FrameOf(item, cut).payload
  {
  }

  lemma PartFound(file: seq<Byte>, found: Option<Block>, item: Item, cut: Cut)
    requires item.Part? && found.Some? && InGroup(found.value, GroupOfHeader(cut.header))
             && found.value.partIndex == item.number
    requires IsSegment(file, found.value, cut)
    ensures FoundAs(file, found, item, cut)
  {
    hide IsSegment;
    hide InGroup;
    hide GroupOfHeader;
  }

  /** Where a segment stands does not matter to its group. */
  lemma GroupAnywhere(s: Segment, t: Segment, head: seq<Byte>)
    requires s.payloadSize == t.payloadSize && 16 <= |head| <= s.payloadSize && (s.payloadSize >= 24 ==> |head| == 24)
    requires s.payloadOffset + s.payloadSize <= SPAN_MAX && s.totalOffset <= SPAN_MAX && s.totalSize <= SPAN_MAX
    requires t.payloadOffset + t.payloadSize <= SPAN_MAX && t.totalOffset <= SPAN_MAX && t.totalSize <= SPAN_MAX
    ensures JumbfPart(s, head).Some? == JumbfPart(t, head).Some?
    ensures JumbfPart(s, head).Some? ==> JumbfPart(s, head).value.group == JumbfPart(t, head).value.group
  {
  }

  lemma NoOtherIsApp11(file: seq<Byte>, s: Segment)
    requires Scannable(file, s) && s.marker != 0xFFEB && Classify(file, s).Some?
    ensures !IsApp11(Classify(file, s).value)
  {
  }

  lemma GroupFromHead(f: Frame)
    requires f.low == 0xEB && |f.payload| <= 65533
    ensures GroupOfFrame(f)
            == if StartsJumbf(f.payload) then
              var part := JumbfPart(Segment(0xFFEB, 0, |f.payload| + 4, 4, |f.payload|), HeadOf(f.payload));
              if part.Some? then Some(part.value.group) else None
            else None
  {
    hide JumbfPart;
  }

  lemma FrameClassified(file: seq<Byte>, s: Segment, f: Frame)
    requires |file| <= SPAN_MAX && f.low == 0xEB && IsFrame(file, s, f)
    ensures Scannable(file, s) && s.marker == 0xFFEB && s.payloadSize == |f.payload|
    ensures Classify(file, s) == if StartsJumbf(f.payload) then JumbfPart(s, HeadOf(f.payload)) else None
  {
    ClassifiedByHead(file, s, f.payload);
    hide Classify;
    hide JumbfPart;
  }

  /** The group of a frame that may be an APP11 segment, read where the file holds it. */
  lemma ForeignApp11(file: seq<Byte>, s: Segment, f: Frame, group: U64)
    requires |file| <= SPAN_MAX && f.low == 0xEB && |f.payload| <= 65533 && GroupOfFrame(f) != Some(group)
    requires IsFrame(file, s, f)
    ensures Classify(file, s).Some? ==> !InGroup(Classify(file, s).value, group)
  {
    hide IsFrame;
    hide Classify;
    hide JumbfPart;
    hide GroupOfFrame;
    var p := f.payload;
    FrameClassified(file, s, f);
    GroupFromHead(f);
    if StartsJumbf(p) {
      GroupAnywhere(s, Segment(0xFFEB, 0, |p| + 4, 4, |p|), HeadOf(p));
    }
    hide HeadOf;
  }

  lemma ForeignIsNotFound(file: seq<Byte>, s: Segment, f: Frame, group: U64)
    requires |file| <= SPAN_MAX && ProperFrame(f) && IsFrame(file, s, f) && GroupOfFrame(f) != Some(group)
    ensures Classify(file, s).Some? ==> !InGroup(Classify(file, s).value, group)
  {
    hide GroupOfFrame;
    hide Classify;
    if f.low == 0xEB {
      ForeignApp11(file, s, f, group);
    } else if Classify(file, s).Some? {
      NoOtherIsApp11(file, s);
    }
  }

  // ----- collecting -------------------------------------------------------------------------------------------

  function Somes(found: seq<Option<Block>>): (r: seq<Block>)
    ensures |r| <= |found|
  {
    if found == [] then []
    else
      var last := found[|found| - 1];
      Somes(found[..|found| - 1]) + if last.Some? then [last.value] else []
  }

  /** With room for all, a scan collects exactly what it finds; in any case it counts it. */
  lemma {:induction false} EmitAllCollects(found: seq<Option<Block>>, capacity: nat)
    ensures EmitAll(NOTHING, capacity, found).needed == |Somes(found)|
    ensures |Somes(found)| <= capacity ==>
              EmitAll(NOTHING, capacity, found) == Collected(Somes(found), |Somes(found)|, Ok)
  {
    if found != [] {
      EmitAllCollects(found[..|found| - 1], capacity);
    }
  }

  lemma {:induction false} GroupCountPrefix(bs: seq<Block>, b: Block, group: U64, n: nat)
    requires n <= |bs|
    ensures GroupCount(bs + [b], group, n) == GroupCount(bs, group, n)
  {
    if n > 0 {
      GroupCountPrefix(bs, b, group, n - 1);
    }
  }

  /** The members of the group in `bs` are the segments of the cut among the first `m` items. */
  ghost predicate Gathered(file: seq<Byte>, bs: seq<Block>, items: seq<Item>, m: nat, cut: Cut)
    requires m <= |items|
  {
    var group := GroupOfHeader(cut.header);
    && GroupCount(bs, group, |bs|) == PartCount(items, m)
    && (forall j :: 0 <= j < |bs| && InGroup(bs[j], group) ==>
        IsSegment(file, bs[j], cut) && Occurs(items, m, bs[j].partIndex))
    && (forall a, b :: 0 <= a < b < |bs| && InGroup(bs[a], group) && InGroup(bs[b], group) ==>
        bs[a].partIndex != bs[b].partIndex)
    && (forall number :: Occurs(items, m, number) ==> HasNumber(bs, group, number))
  }

  lemma GatherOne(file: seq<Byte>, bs: seq<Block>, found: Option<Block>, items: seq<Item>, m: nat, cut: Cut)
    requires m < |items| && DistinctNumbers(items) && Gathered(file, bs, items, m, cut)
             && FoundAs(file, found, items[m], cut)
    ensures Gathered(file, bs + if found.Some? then [found.value] else [], items, m + 1, cut)
  {
    hide IsSegment;
    hide IsApp11;
    hide GroupOfHeader;
    var group := GroupOfHeader(cut.header);
    forall number ensures Occurs(items, m + 1, number) <==>
        Occurs(items, m, number) || (items[m].Part? && items[m].number == number) {
      if Occurs(items, m, number) {
        var i :| 0 <= i < m && items[i].Part? && items[i].number == number;
        assert i < m + 1;
      }
    }
    if found.None? {
      assert bs + [] == bs;
    } else {
      var cs := bs + [found.value];
      GroupCountPrefix(bs, found.value, group, |bs|);
      hide GroupCount;
      assert items[m].Part? ==> !Occurs(items, m, items[m].number);
      forall number | HasNumber(bs, group, number) ensures HasNumber(cs, group, number) {
        var j :| 0 <= j < |bs| && InGroup(bs[j], group) && bs[j].partIndex == number;
        assert cs[j] == bs[j];
      }
      assert cs[|bs|] == found.value;
    }
  }

  lemma {:induction false} GatherAll(file: seq<Byte>, found: seq<Option<Block>>, items: seq<Item>, cut: Cut, m: nat)
    requires m <= |found| == |items| && DistinctNumbers(items)
    requires forall i :: 0 <= i < |items| ==> FoundAs(file, found[i], items[i], cut)
    ensures Gathered(file, Somes(found[..m]), items, m, cut)
  {
    if m > 0 {
      GatherAll(file, found, items, cut, m - 1);
      var shorter := found[..m];
      assert shorter[..m - 1] == found[..m - 1];
      hide Gathered;
      hide FoundAs;
      GatherOne(file, Somes(found[..m - 1]), found[m - 1], items, m - 1, cut);
    }
  }

  // ----- there and back -------------------------------------------------------------------------------------------

  /** The file with the cut and all other segments. */
  function Written(items: seq<Item>, cut: Cut, tail: seq<Byte>): seq<Byte>
    requires PartsInCut(items, cut)
  {
    WriteFile(Frames(items, cut), tail)
  }

  /** What the scanner classifies in a written file. */
  lemma WrittenIsFound(items: seq<Item>, cut: Cut, tail: seq<Byte>)
    requires Writable(items, cut) && ProperTail(tail) && |Written(items, cut, tail)| <= SPAN_MAX
    ensures var file := Written(items, cut, tail);
            && |file| >= 2 && file[0] == 0xFF && file[1] == 0xD8 && Walk(file, 2).1
            && |Classified(file, Walk(file, 2).0)| == |items|
            && forall i :: 0 <= i < |items| ==> FoundAs(file, Classified(file, Walk(file, 2).0)[i], items[i], cut)
  {
    hide FoundAs;
    hide IsFrame;
    hide Walk;
    var frames := Frames(items, cut);
    var file := Written(items, cut, tail);
    assert file[2..] == EncodeAll(frames) + tail;
    assert forall i :: 0 <= i < |items| ==> ProperItem(items[i], cut);
    WalkFindsFrames(file, 2, frames, tail);
    var segments := Walk(file, 2).0;
    forall i | 0 <= i < |items| ensures FoundAs(file, Classify(file, segments[i]), items[i], cut) {
      assert IsFrame(file, segments[i], frames[i]);
      ItemIsFound(file, segments[i], items[i], cut);
    }
  }

  lemma ItemIsFound(file: seq<Byte>, s: Segment, item: Item, cut: Cut)
    requires |file| <= SPAN_MAX && ReadableHeader(cut.header) && ProperItem(item, cut)
             && IsFrame(file, s, FrameOf(item, cut))
    ensures InBounds(file, s) && FoundAs(file, Classify(file, s), item, cut)
  {
    if item.Part? {
      PartIsFound(file, s, item, cut);
    } else {
      ForeignIsNotFound(file, s, item.frame, GroupOfHeader(cut.header));
    }
  }

  /** The blocks of a written file, before normalisation, hold the cut. */
  lemma WrittenHoldsCut(items: seq<Item>, cut: Cut, tail: seq<Byte>, capacity: U32)
    requires Writable(items, cut) && ProperTail(tail) && |Written(items, cut, tail)| <= SPAN_MAX
    requires Scan(Written(items, cut, tail), capacity).needed <= capacity
    ensures var file := Written(items, cut, tail);
            && |file| >= 2 && file[0] == 0xFF && file[1] == 0xD8 && Walk(file, 2).1
              && Walked(file, capacity).status == Ok
            && HoldsCut(file, Walked(file, capacity).blocks, GroupOfHeader(cut.header), cut)
  {
    var file := Written(items, cut, tail);
    WrittenIsFound(items, cut, tail);
    hide Written;
    hide FoundAs;
    hide Walk;
    var found := Classified(file, Walk(file, 2).0);
    EmitAllCollects(found, capacity);
    GatherAll(file, found, items, cut, |found|);
    assert found[..|found|] == found;
    hide EmitAll;
    hide Gathered;
    hide HoldsCut;
    hide Writable;
    GatheredHoldsCut(file, Somes(found), items, cut);
  }

  lemma GatheredHoldsCut(file: seq<Byte>, bs: seq<Block>, items: seq<Item>, cut: Cut)
    requires Writable(items, cut) && Gathered(file, bs, items, |items|, cut)
    ensures HoldsCut(file, bs, GroupOfHeader(cut.header), cut)
  {
    AllOccur(items, cut, cut.base);
    AllOccur(items, cut, cut.base + |cut.chunks| - 1);
    hide ProperItem;
    hide ReadableHeader;
    hide IsSegment;
    hide IsApp11;
    hide GroupCount;
    hide HasNumber;
    hide Occurs;
    hide GroupOfHeader;
  }

  /** The members of the group, after the scan, are numbered 0 .. n-1 with each number once. */
  ghost predicate NumberedMembers(bs: seq<Block>, group: U64, n: nat) {
    && GroupCount(bs, group, |bs|) == n
    && (forall j :: 0 <= j < |bs| && InGroup(bs[j], group) ==> bs[j].partIndex < n && bs[j].partCount == n)
    && (forall a, b :: 0 <= a < b < |bs| && InGroup(bs[a], group) && InGroup(bs[b], group) ==>
        bs[a].partIndex != bs[b].partIndex)
  }

  lemma NormalizedMembers(file: seq<Byte>, bs: seq<Block>, group: U64, cut: Cut)
    requires HoldsCut(file, bs, group, cut) && |bs| <= U32_MAX && Sized(bs)
    ensures NumberedMembers(Normalized(bs), group, |cut.chunks|)
    ensures forall j :: 0 <= j < |bs| ==> (InGroup(Normalized(bs)[j], group) <==> InGroup(bs[j], group))
  {
    var ns := Normalized(bs);
    forall j | 0 <= j < |bs|
      ensures InGroup(ns[j], group) <==> InGroup(bs[j], group)
      ensures InGroup(bs[j], group) ==>
                ns[j].partIndex == bs[j].partIndex - cut.base < |cut.chunks| && ns[j].partCount == |cut.chunks|
    {
      if InGroup(bs[j], group) {
        SegmentCarries(file, bs, group, cut, j);
      } else if IsApp11(bs[j]) {
        NormalBlockMarks(bs, j);
      }
    }
    hide NormalBlock;
    hide IsSegment;
    hide HasNumber;
    CountsAgree(bs, ns, group, |bs|);
  }

  lemma {:induction false} CountsAgree(bs: seq<Block>, ns: seq<Block>, group: U64, n: nat)
    requires n <= |bs| == |ns| && forall j :: 0 <= j < |bs| ==> (InGroup(ns[j], group) <==> InGroup(bs[j], group))
    ensures GroupCount(bs, group, n) == GroupCount(ns, group, n)
  {
    if n > 0 {
      CountsAgree(bs, ns, group, n - 1);
    }
  }

  /**
   * The round trip. A box is cut into segments; these are written in any order among any other
   * segments. With room for all blocks, the scan numbers the segments of the box 0 .. n-1, and the
   * extraction from any one of them returns the box.
   */
  lemma CutSurvives(items: seq<Item>, cut: Cut, tail: seq<Byte>, capacity: U32, scratch: nat,
                    options: PS.PayloadOptions)
    requires Writable(items, cut) && ProperTail(tail) && |Written(items, cut, tail)| <= SPAN_MAX
    requires Scan(Written(items, cut, tail), capacity).needed <= capacity
    ensures var file := Written(items, cut, tail);
            var scan := Scan(file, capacity);
            var group := GroupOfHeader(cut.header);
            && scan.status == Ok && |scan.blocks| <= U32_MAX && NumberedMembers(scan.blocks, group, |cut.chunks|)
            && forall k :: 0 <= k < |scan.blocks| && InGroup(scan.blocks[k], group) && Admits(options, scratch, cut)
                           ==> PS.Extraction(file, scan.blocks, k, scratch, options) == PS.Stream(BoxOf(cut))
  {
    var file := Written(items, cut, tail);
    var group := GroupOfHeader(cut.header);
    WrittenHoldsCut(items, cut, tail, capacity);
    WalkedAsFound(file, capacity);
    var bs := Walked(file, capacity).blocks;
    NormalizedMembers(file, bs, group, cut);
    hide Written;
    hide Writable;
    hide HoldsCut;
    hide NumberedMembers;
    hide InGroup;
    hide NormalBlock;
    hide PS.Extraction;
    hide Walked;
    hide Walk;
    forall k | 0 <= k < |bs| && InGroup(bs[k], group) && Admits(options, scratch, cut)
      ensures PS.Extraction(file, Normalized(bs), k, scratch, options) == PS.Stream(BoxOf(cut))
    {
      JoinReturnsBox(file, bs, group, cut, k, scratch, options);
    }
  }
}
