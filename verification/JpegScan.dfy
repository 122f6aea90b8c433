/** The two JPEG scanners: over a file in memory, and over positional reads. */
module JpegScan {
  import opened Bytes
  import opened Blocks
  import opened BlockSinks
  import opened JpegSegments
  import opened JumbfGroups
  import opened PositionalGroups

  // ----- what a scan finds ------------------------------------------------------------------------

  function Classified(bytes: seq<Byte>, segments: seq<Segment>): (r: seq<Option<Block>>)
    requires |bytes| <= SPAN_MAX && forall i :: 0 <= i < |segments| ==> InBounds(bytes, segments[i])
    ensures |r| == |segments| && forall i :: 0 <= i < |r| ==> r[i] == Classify(bytes, segments[i])
  {
    seq(|segments|, i requires 0 <= i < |segments| => Classify(bytes, segments[i]))
  }

  /** What the scanners promise of each block they write, before normalisation. */
  ghost predicate AsFound(b: Block) {
    b.dataSize <= SPAN_MAX && (IsApp11(b) ==> b.partCount == 0)
  }

  lemma ClassifiedAsFound(bytes: seq<Byte>, s: Segment)
    requires Scannable(bytes, s)
    ensures Classify(bytes, s).Some? ==> AsFound(Classify(bytes, s).value)
  {
  }

  lemma {:induction false} CollectedAsFound(found: seq<Option<Block>>, capacity: nat)
    requires forall i :: 0 <= i < |found| && found[i].Some? ==> AsFound(found[i].value)
    ensures var c := EmitAll(NOTHING, capacity, found);
            |c.blocks| <= capacity && forall j :: 0 <= j < |c.blocks| ==> AsFound(c.blocks[j])
  {
    hide AsFound;
    if found != [] {
      CollectedAsFound(found[..|found| - 1], capacity);
    }
  }

  /** The blocks and the status after the walk, before normalisation. */
  function Walked(bytes: seq<Byte>, capacity: U32): Collected
    requires 2 <= |bytes| <= SPAN_MAX
  {
    EmitAll(NOTHING, capacity, Classified(bytes, Walk(bytes, 2).0))
  }

  lemma WalkedAsFound(bytes: seq<Byte>, capacity: U32)
    requires 2 <= |bytes| <= SPAN_MAX
    ensures var blocks := Walked(bytes, capacity).blocks;
            |blocks| <= capacity && forall j :: 0 <= j < |blocks| ==> AsFound(blocks[j])
  {
    var found := Classified(bytes, Walk(bytes, 2).0);
    forall i | 0 <= i < |found| && found[i].Some? ensures AsFound(found[i].value) {
      ClassifiedAsFound(bytes, Walk(bytes, 2).0[i]);
    }
    CollectedAsFound(found, capacity);
  }

  /** The result of scanning `bytes` into an output of the given capacity. */
  ghost function Scan(bytes: seq<Byte>, capacity: U32): Collected
    requires |bytes| <= SPAN_MAX
  {
    if |bytes| < 2 then NOTHING.(status := Malformed)
    else if bytes[0] != 0xFF || bytes[1] != 0xD8 then NOTHING.(status := Unsupported)
    else
      var c := Walked(bytes, capacity);
      WalkedAsFound(bytes, capacity);
      if !Walk(bytes, 2).1 then c.(status := Malformed) else c.(blocks := Normalized(c.blocks))
  }

  // ----- progress of a scan -------------------------------------------------------------------------

  /** From `start` the segments `done` were walked, and the walk goes on at `offset`. */
  ghost predicate WalkedTo(bytes: seq<Byte>, start: nat, done: seq<Segment>, offset: nat) {
    && start <= offset <= |bytes|
    && (forall i :: 0 <= i < |done| ==> InBounds(bytes, done[i]))
    && Walk(bytes, start).0 == done + Walk(bytes, offset).0
    && Walk(bytes, start).1 == Walk(bytes, offset).1
  }

  lemma WalkStart(bytes: seq<Byte>, start: nat)
    requires start <= |bytes|
    ensures WalkedTo(bytes, start, [], start)
  {
    assert [] + Walk(bytes, start).0 == Walk(bytes, start).0;
  }

  lemma WalkOn(bytes: seq<Byte>, start: nat, done: seq<Segment>, offset: nat)
    requires WalkedTo(bytes, start, done, offset) && offset + 2 <= |bytes|
    ensures var step := StepAt(bytes, offset);
            && (step.Finished? ==> Walk(bytes, start).0 == done && Walk(bytes, start).1)
            && (step.Broken? ==> Walk(bytes, start).0 == done && !Walk(bytes, start).1)
            && (step.Standalone? ==> WalkedTo(bytes, start, done, step.next))
            && (step.Found? ==> WalkedTo(bytes, start, done + [step.segment],
                                         step.segment.payloadOffset + step.segment.payloadSize))
  {
    hide StepAt;
    var step := StepAt(bytes, offset);
    if step.Found? {
      var next := step.segment.payloadOffset + step.segment.payloadSize;
      assert Walk(bytes, offset).0 == [step.segment] + Walk(bytes, next).0;
      assert done + ([step.segment] + Walk(bytes, next).0) == (done + [step.segment]) + Walk(bytes, next).0;
    } else if !step.Standalone? {
      assert done + [] == done;
    }
  }

  lemma WalkEnd(bytes: seq<Byte>, start: nat, done: seq<Segment>, offset: nat)
    requires WalkedTo(bytes, start, done, offset) && offset + 2 > |bytes|
    ensures Walk(bytes, start).0 == done && Walk(bytes, start).1
  {
    assert done + [] == done;
  }

  lemma ClassifiedMore(bytes: seq<Byte>, done: seq<Segment>, s: Segment, capacity: nat)
    requires |bytes| <= SPAN_MAX && forall i :: 0 <= i < |done| ==> InBounds(bytes, done[i])
    requires InBounds(bytes, s)
    ensures EmitAll(NOTHING, capacity, Classified(bytes, done + [s]))
            == EmitOption(EmitAll(NOTHING, capacity, Classified(bytes, done)), capacity, Classify(bytes, s))
  {
    var all := Classified(bytes, done + [s]);
    assert all[..|all| - 1] == Classified(bytes, done);
  }

  /** The walk is at `offset`, and `c` holds the blocks of the segments `done`. */
  ghost predicate Scanned(bytes: seq<Byte>, done: seq<Segment>, offset: nat, c: Collected, capacity: nat) {
    && 2 <= |bytes| <= SPAN_MAX && WalkedTo(bytes, 2, done, offset)
      && c == EmitAll(NOTHING, capacity, Classified(bytes, done))
  }

  lemma ScannedStart(bytes: seq<Byte>, capacity: nat)
    requires 2 <= |bytes| <= SPAN_MAX
    ensures Scanned(bytes, [], 2, NOTHING, capacity)
  {
    WalkStart(bytes, 2);
    hide WalkedTo;
  }

  /** One step of the walk. */
  lemma ScannedOn(bytes: seq<Byte>, done: seq<Segment>, offset: nat, c: Collected, capacity: U32)
    requires Scanned(bytes, done, offset, c, capacity) && offset + 2 <= |bytes|
    ensures var step := StepAt(bytes, offset);
            && (step.Finished? ==> c == Walked(bytes, capacity) && Walk(bytes, 2).1)
            && (step.Broken? ==> c == Walked(bytes, capacity) && !Walk(bytes, 2).1)
            && (step.Standalone? ==> Scanned(bytes, done, step.next, c, capacity))
            && (step.Found? ==>
                  && InBounds(bytes, step.segment)
                  && Scanned(bytes, done + [step.segment], step.segment.payloadOffset + step.segment.payloadSize,
                             EmitOption(c, capacity, Classify(bytes, step.segment)), capacity))
  {
    var step := StepAt(bytes, offset);
    WalkOn(bytes, 2, done, offset);
    if step.Found? {
      ClassifiedMore(bytes, done, step.segment, capacity);
    }
    hide Classify;
    hide EmitAll;
    hide EmitOption;
    hide StepAt;
    hide Walk;
  }

  lemma ScannedEnd(bytes: seq<Byte>, done: seq<Segment>, offset: nat, c: Collected, capacity: U32)
    requires Scanned(bytes, done, offset, c, capacity) && offset + 2 > |bytes|
    ensures c == Walked(bytes, capacity) && Walk(bytes, 2).1
  {
    WalkEnd(bytes, 2, done, offset);
  }

  // ----- the scanner in memory ------------------------------------------------------------------------

  /** What stands at a marker position, after any fill bytes. */
  method NextMarker(bytes: seq<Byte>, start: nat) returns (step: Step)
    requires start + 2 <= |bytes|
    ensures step == StepAt(bytes, start)
  {
    if bytes[start] != 0xFF {
      return Broken;
    }
    var offset := start;
    while offset < |bytes| && bytes[offset] == 0xFF
      invariant start <= offset <= |bytes| && SkipFill(bytes, offset) == SkipFill(bytes, start)
    {
      offset := offset + 1;
    }
    if offset >= |bytes| {
      return Finished;
    }
    var low := bytes[offset] as int;
    step := MarkerStep(bytes, offset, low);
  }

  /** The marker `low` at `at`: an end, a marker without a payload, or a segment with a valid length. */
  method MarkerStep(bytes: seq<Byte>, at: nat, low: int) returns (step: Step)
    requires 1 <= at < |bytes| && bytes[at] as int == low && low != 0xFF
    ensures forall start ::
              0 <= start && start + 2 <= |bytes| && bytes[start] == 0xFF && SkipFill(bytes, start) == at ==>
                step == StepAt(bytes, start)
  {
    var markerOffset, offset := at - 1, at + 1;
    if low == 0xD9 || low == 0xDA {
      return Finished;
    }
    if (0xD0 <= low && low <= 0xD7) || low == 0x01 {
      return Standalone(offset);
    }
    var length := ReadBe(bytes, offset, 2);
    if length.None? || length.value < 2 {
      return Broken;
    }
    BeValueBound(bytes[offset..offset + 2]);
    assert Pow256(2) == 0x10000;
    var payloadOffset, payloadSize, totalSize := offset + 2, length.value - 2, 2 + length.value;
    if payloadOffset + payloadSize > |bytes| || markerOffset + totalSize > |bytes| {
      return Broken;
    }
    step := Found(Segment(0xFF00 + low, markerOffset, totalSize, payloadOffset, payloadSize));
  }

  method ScanJpeg(bytes: seq<Byte>, out: array<Block>) returns (sink: BlockSink)
    requires |bytes| <= SPAN_MAX && out.Length <= U32_MAX
    modifies out
    ensures sink.Valid() && sink.out == out && sink.Collection() == Scan(bytes, out.Length)
  {
    sink := new BlockSink(out);
    if |bytes| < 2 {
      sink.status := Malformed;
      return;
    }
    if bytes[0] != 0xFF || bytes[1] != 0xD8 {
      sink.status := Unsupported;
      return;
    }
    var ok := CollectSegments(bytes, sink);
    if !ok {
      sink.status := Malformed;
      return;
    }
    FinishScan(bytes, sink);
  }

  /** Walks over the segments and emits their blocks; false if the file is malformed. */
  method CollectSegments(bytes: seq<Byte>, sink: BlockSink) returns (ok: bool)
    requires 2 <= |bytes| <= SPAN_MAX && sink.Valid() && sink.Collection() == NOTHING && sink.out.Length <= U32_MAX
    modifies sink, sink.out
    ensures sink.Valid() && sink.Collection() == Walked(bytes, sink.out.Length) && ok == Walk(bytes, 2).1
  {
    ScannedStart(bytes, sink.out.Length);
    hide *;
    ghost var done := [];
    var offset := 2;
    while offset + 2 <= |bytes|
      invariant sink.Valid() && 2 <= offset <= |bytes|
                && Scanned(bytes, done, offset, sink.Collection(), sink.out.Length)
      decreases |bytes| - offset
    {
      var step := NextMarker(bytes, offset);
      ScannedOn(bytes, done, offset, sink.Collection(), sink.out.Length);
      match step
      case Finished => return true;
      case Broken => return false;
      case Standalone(next) => offset := next;
      case Found(segment) =>
        EmitOne(sink, Classify(bytes, segment));
        done := done + [segment];
        offset := segment.payloadOffset + segment.payloadSize;
    }
    ScannedEnd(bytes, done, offset, sink.Collection(), sink.out.Length);
    ok := true;
  }

  /** Emits the block of a segment that is one. */
  method EmitOne(sink: BlockSink, b: Option<Block>)
    requires sink.Valid()
    modifies sink, sink.out
    ensures sink.Valid() && sink.Collection() == EmitOption(old(sink.Collection()), sink.out.Length, b)
  {
    if b.Some? {
      sink.SinkEmit(b.value);
    }
  }

  /** Normalises what a walk without objection has written. */
  method FinishScan(bytes: seq<Byte>, sink: BlockSink)
    requires 2 <= |bytes| <= SPAN_MAX && bytes[0] == 0xFF && bytes[1] == 0xD8 && Walk(bytes, 2).1
    requires sink.Valid() && sink.out.Length <= U32_MAX && sink.Collection() == Walked(bytes, sink.out.Length)
    modifies sink.out
    ensures sink.Valid() && sink.Collection() == Scan(bytes, sink.out.Length)
  {
    WalkedAsFound(bytes, sink.out.Length);
    assert forall j :: 0 <= j < sink.written ==> AsFound(sink.out[..sink.written][j]);
    NormalizeApp11(sink.out, sink.written);
  }

  // ----- the positional scanner ---------------------------------------------------------------------------

  /** A read of the source, which succeeds and returns exactly the bytes asked for. */
  function View(file: seq<Byte>, offset: nat, size: nat): (r: seq<Byte>)
    requires offset + size <= |file|
    ensures |r| == size && forall i :: 0 <= i < size ==> r[i] == file[offset + i]
  {
    file[offset..offset + size]
  }

  method NextMarkerPositional(file: seq<Byte>, start: nat) returns (step: Step)
    requires start + 2 <= |file|
    ensures step == StepAt(file, start)
  {
    var view := View(file, start, 1);
    if view[0] != 0xFF {
      return Broken;
    }
    var offset, low := start, 0xFF;
    while low == 0xFF
      invariant start <= offset < |file| && low == file[offset] as int
      invariant SkipFill(file, offset) == SkipFill(file, start)
      decreases |file| - offset
    {
      offset := offset + 1;
      if offset >= |file| {
        return Finished;
      }
      view := View(file, offset, 1);
      low := view[0] as int;
    }
    step := MarkerStepPositional(file, offset, low);
  }

  method MarkerStepPositional(file: seq<Byte>, at: nat, low: int) returns (step: Step)
    requires 1 <= at < |file| && file[at] as int == low && low != 0xFF
    ensures forall start :: 0 <= start && start + 2 <= |file| && file[start] == 0xFF && SkipFill(file, start) == at ==>
              step == StepAt(file, start)
  {
    var markerOffset, offset := at - 1, at + 1;
    if low == 0xD9 || low == 0xDA {
      return Finished;
    }
    if (0xD0 <= low && low <= 0xD7) || low == 0x01 {
      return Standalone(offset);
    }
    if offset > |file| || |file| - offset < 2 {
      return Broken;
    }
    var view := View(file, offset, 2);
    assert view == file[offset..offset + 2];
    BeValueBound(view);
    assert Pow256(2) == 0x10000;
    var length := BeValue(view);
    if length < 2 {
      return Broken;
    }
    var payloadOffset, payloadSize, totalSize := offset + 2, length - 2, 2 + length;
    if !CheckedRange(payloadOffset, payloadSize, |file|) || !CheckedRange(markerOffset, totalSize, |file|) {
      return Broken;
    }
    step := Found(Segment(0xFF00 + low, markerOffset, totalSize, payloadOffset, payloadSize));
  }

  /** The block of a segment, from the prefix of its payload, which is all that is read of it. */
  function ClassifyPositional(file: seq<Byte>, segment: Segment): (b: Option<Block>)
    requires |file| <= SPAN_MAX && InBounds(file, segment)
    ensures b == Classify(file, segment)
  {
    var probe := ProbeSize(segment.marker, segment.payloadSize);
    var prefix := if probe != 0 then View(file, segment.payloadOffset, probe) else [];
    PrefixReadSuffices(file, segment, prefix);
    ClassifyPrefix(prefix, segment)
  }

  lemma PrefixReadSuffices(file: seq<Byte>, segment: Segment, prefix: seq<Byte>)
    requires |file| <= SPAN_MAX && InBounds(file, segment)
    requires var probe := ProbeSize(segment.marker, segment.payloadSize);
             prefix == if probe != 0 then View(file, segment.payloadOffset, probe) else []
    ensures Probed(segment, prefix) && ClassifyPrefix(prefix, segment) == Classify(file, segment)
  {
    hide Classify;
    hide ClassifyPrefix;
    assert prefix == PrefixOf(file, segment);
    PrefixSuffices(file, segment);
  }

  /** Classifies a segment by its prefix and emits its block. */
  method EmitPositional(sink: BlockSink, file: seq<Byte>, segment: Segment)
    requires |file| <= SPAN_MAX && InBounds(file, segment) && sink.Valid()
    modifies sink, sink.out
    ensures sink.Valid() && sink.Collection()
            == EmitOption(old(sink.Collection()), sink.out.Length, Classify(file, segment))
  {
    var b := ClassifyPositional(file, segment);
    hide *;
    EmitOne(sink, b);
  }

  /** Reads no more than `ProbeSize` bytes of each payload. */
  method CollectSegmentsPositional(file: seq<Byte>, sink: BlockSink) returns (ok: bool)
    requires 2 <= |file| <= SPAN_MAX && sink.Valid() && sink.Collection() == NOTHING && sink.out.Length <= U32_MAX
    modifies sink, sink.out
    ensures sink.Valid() && sink.Collection() == Walked(file, sink.out.Length) && ok == Walk(file, 2).1
  {
    ScannedStart(file, sink.out.Length);
    hide *;
    ghost var done := [];
    var offset := 2;
    while offset <= |file| && |file| - offset >= 2
      invariant sink.Valid() && 2 <= offset <= |file| && Scanned(file, done, offset, sink.Collection(), sink.out.Length)
      decreases |file| - offset
    {
      var step := NextMarkerPositional(file, offset);
      ScannedOn(file, done, offset, sink.Collection(), sink.out.Length);
      match step
      case Finished => return true;
      case Broken => return false;
      case Standalone(next) => offset := next;
      case Found(segment) =>
        EmitPositional(sink, file, segment);
        done := done + [segment];
        offset := segment.payloadOffset + segment.payloadSize;
    }
    ScannedEnd(file, done, offset, sink.Collection(), sink.out.Length);
    ok := true;
  }

  /** Normalises what a walk without objection has written. */
  method FinishPositionalScan(file: seq<Byte>, sink: BlockSink)
    requires 2 <= |file| <= SPAN_MAX && file[0] == 0xFF && file[1] == 0xD8 && Walk(file, 2).1
    requires sink.Valid() && sink.out.Length <= U32_MAX && sink.Collection() == Walked(file, sink.out.Length)
    modifies sink.out
    ensures sink.Valid() && sink.Collection() == Scan(file, sink.out.Length)
  {
    WalkedAsFound(file, sink.out.Length);
    assert forall j :: 0 <= j < sink.written ==> AsFound(sink.out[..sink.written][j]);
    NormalizePositional(sink.out, sink.written);
  }

  /** Both scanners have one and the same contract: status, counts and block list agree on every input. */
  method ScanPositionalJpeg(file: seq<Byte>, out: array<Block>) returns (sink: BlockSink)
    requires |file| <= SPAN_MAX && out.Length <= U32_MAX
    modifies out
    ensures sink.Valid() && sink.out == out && sink.Collection() == Scan(file, out.Length)
  {
    sink := new BlockSink(out);
    if |file| < 2 {
      sink.status := Malformed;
      return;
    }
    var view := View(file, 0, 2);
    if view[0] != 0xFF || view[1] != 0xD8 {
      sink.status := Unsupported;
      return;
    }
    var ok := CollectSegmentsPositional(file, sink);
    if !ok {
      sink.status := Malformed;
      return;
    }
    FinishPositionalScan(file, sink);
  }
}
