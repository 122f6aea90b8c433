/** The TIFF scanner: a worklist of directory offsets with a fixed stack and a fixed list of visited ones. */
module TiffScan {
  import opened Bytes
  import opened Blocks
  import opened BlockSinks
  import opened TiffIfds

  const MAX_STACK := 256
  const MAX_VISITED := 256

  /** A fixed buffer of offsets that is filled from the front. */
  class OffsetList {
    const items: array<U64>
    var size: nat

    ghost predicate Valid()
      reads this
    {
      size <= items.Length
    }

    ghost function Contents(): seq<U64>
      requires Valid()
      reads this, items
    {
      items[..size]
    }

    constructor (capacity: nat)
      ensures Valid() && Contents() == [] && items.Length == capacity && fresh(items)
    {
      items := new U64[capacity];
      size := 0;
    }

    /** Pushes a nonzero offset; fails only if there is no room for it. */
    method PushOffset(offset: U64) returns (ok: bool)
      requires Valid()
      modifies this`size, items
      ensures Valid() && (ok <==> offset == 0 || old(size) < items.Length)
      ensures Contents() == if ok then old(Contents()) + NonZero(offset) else old(Contents())
    {
      if offset == 0 {
        return true;
      }
      if size >= items.Length {
        return false;
      }
      items[size] := offset;
      size := size + 1;
      ok := true;
    }

    method Pop() returns (offset: U64)
      requires Valid() && size > 0
      modifies this`size
      ensures Valid() && old(Contents()) == Contents() + [offset]
    {
      offset := items[size - 1];
      size := size - 1;
    }

    method Holds(offset: U64) returns (found: bool)
      requires Valid()
      ensures found <==> offset in Contents()
    {
      var i := 0;
      while i < size
        invariant 0 <= i <= size && offset !in items[..i]
      {
        if items[i] == offset {
          return true;
        }
        i := i + 1;
      }
      found := false;
    }
  }

  // ----- one directory ---------------------------------------------------------------------------------

  /** Pushes the elements of an array of directory offsets. */
  method PushSubIfds(cfg: TiffConfig, bytes: seq<Byte>, e: IfdEntry, stack: OffsetList) returns (ok: bool)
    requires stack.Valid()
    modifies stack`size, stack.items
    ensures stack.Valid()
    ensures ok ==> stack.Contents() == old(stack.Contents()) + SubIfds(cfg, bytes, e, Min(e.count, MAX_SUB_IFDS))
    ensures !ok ==> old(stack.size) + |SubIfds(cfg, bytes, e, Min(e.count, MAX_SUB_IFDS))| > stack.items.Length
  {
    ghost var before, n := stack.Contents(), Min(e.count, MAX_SUB_IFDS);
    NoSubIfdsYet(cfg, bytes, e, before);
    var j := 0;
    while j < e.count && j < MAX_SUB_IFDS
      invariant 0 <= j <= n && stack.Valid() && SubIfdsPushed(cfg, bytes, e, before, stack.Contents(), j)
    {
      hide *;
      ok := PushSubIfd(cfg, bytes, e, j, stack, before);
      if !ok {
        SubIfdsGrow(cfg, bytes, e, j + 1, n);
        return;
      }
      j := j + 1;
    }
    ok := true;
  }

  method PushSubIfd(cfg: TiffConfig, bytes: seq<Byte>, e: IfdEntry, j: nat, stack: OffsetList, ghost before: seq<U64>)
    returns (ok: bool)
    requires stack.Valid() && SubIfdsPushed(cfg, bytes, e, before, stack.Contents(), j)
    modifies stack`size, stack.items
    ensures stack.Valid()
    ensures ok ==> SubIfdsPushed(cfg, bytes, e, before, stack.Contents(), j + 1)
    ensures !ok ==> |before| + |SubIfds(cfg, bytes, e, j + 1)| > stack.items.Length
  {
    OneMoreSubIfd(cfg, bytes, e, j, before);
    hide SubIfds;
    hide SubIfd;
    hide NonZero;
    ok := stack.PushOffset(SubIfd(cfg, bytes, e, j));
  }

  /** The first `n` offsets of an array of directories have been pushed behind what was there. */
  ghost predicate SubIfdsPushed(cfg: TiffConfig, bytes: seq<Byte>, e: IfdEntry, before: seq<U64>, now: seq<U64>,
                                n: nat) {
    now == before + SubIfds(cfg, bytes, e, n)
  }

  lemma NoSubIfdsYet(cfg: TiffConfig, bytes: seq<Byte>, e: IfdEntry, before: seq<U64>)
    ensures SubIfdsPushed(cfg, bytes, e, before, before, 0)
  {
  }

  lemma OneMoreSubIfd(cfg: TiffConfig, bytes: seq<Byte>, e: IfdEntry, j: nat, before: seq<U64>)
    ensures before + SubIfds(cfg, bytes, e, j + 1) == before + SubIfds(cfg, bytes, e, j)
            + NonZero(SubIfd(cfg, bytes, e, j))
    ensures SubIfd(cfg, bytes, e, j) != 0 ==> |SubIfds(cfg, bytes, e, j + 1)| == |SubIfds(cfg, bytes, e, j)| + 1
  {
    hide SubIfd;
  }

  lemma {:induction false} SubIfdsGrow(cfg: TiffConfig, bytes: seq<Byte>, e: IfdEntry, m: nat, n: nat)
    requires m <= n
    ensures |SubIfds(cfg, bytes, e, m)| <= |SubIfds(cfg, bytes, e, n)|
  {
    if m < n {
      SubIfdsGrow(cfg, bytes, e, m, n - 1);
    }
  }

  method PushPointers(cfg: TiffConfig, bytes: seq<Byte>, e: IfdEntry, stack: OffsetList) returns (ok: bool)
    requires stack.Valid()
    modifies stack`size, stack.items
    ensures stack.Valid()
    ensures ok ==> stack.Contents() == old(stack.Contents()) + Pointers(cfg, bytes, e)
    ensures !ok ==> old(stack.size) + |Pointers(cfg, bytes, e)| > stack.items.Length
  {
    if e.tag == EXIF_IFD || e.tag == GPS_IFD || e.tag == INTEROP_IFD || e.tag == SUB_IFDS {
      if e.tag == SUB_IFDS && e.count > 1 {
        ok := PushSubIfds(cfg, bytes, e, stack);
      } else {
        ok := stack.PushOffset(PointerOf(cfg, bytes, e));
      }
      return;
    }
    ok := true;
  }

  method EmitValues(bytes: seq<Byte>, e: IfdEntry, sink: BlockSink)
    requires sink.Valid() && CheckedRange(e.valueOffset, e.valueBytes, |bytes|)
    modifies sink, sink.out
    ensures sink.Valid() && sink.Collection()
            == EmitBlocks(old(sink.Collection()), sink.out.Length, EntryBlocks(bytes, e))
  {
    var jumbf, tagged := JumbfValue(bytes, e), TaggedValue(e);
    EmitFew(old(sink.Collection()), sink.out.Length, jumbf, tagged);
    if |jumbf| > 0 {
      sink.SinkEmit(jumbf[0]);
    }
    if |tagged| > 0 {
      sink.SinkEmit(tagged[0]);
    }
  }

  lemma EmitFew(c: Collected, capacity: nat, a: seq<Block>, b: seq<Block>)
    requires |a| <= 1 && |b| <= 1
    ensures var d := if a == [] then c else Emit(c, capacity, a[0]);
            EmitBlocks(c, capacity, a + b) == if b == [] then d else Emit(d, capacity, b[0])
  {
    hide Emit;
    EmitBlocksJoin(c, capacity, a, b);
    assert a != [] ==> a[..|a| - 1] == [];
    assert b != [] ==> b[..|b| - 1] == [];
    assert a != [] ==> EmitBlocks(c, capacity, a) == Emit(EmitBlocks(c, capacity, []), capacity, a[0]);
    var d := EmitBlocks(c, capacity, a);
    assert b != [] ==> EmitBlocks(d, capacity, b) == Emit(EmitBlocks(d, capacity, []), capacity, b[0]);
  }

  lemma {:induction false} EntriesGrow(cfg: TiffConfig, bytes: seq<Byte>, d: Directory, m: nat, n: nat)
    requires |bytes| <= SPAN_MAX && m <= n
    ensures EntryPointers(cfg, bytes, d, m) <= EntryPointers(cfg, bytes, d, n)
    ensures ValueBlocks(cfg, bytes, d, m) <= ValueBlocks(cfg, bytes, d, n)
  {
    hide EntryAt;
    hide Pointers;
    hide EntryBlocks;
    if m < n {
      EntriesGrow(cfg, bytes, d, m, n - 1);
    }
  }

  /** One entry: pushes where it points to, then emits the blocks in its value. */
  method ScanEntry(cfg: TiffConfig, bytes: seq<Byte>, d: Directory, i: nat, stack: OffsetList, sink: BlockSink)
    returns (ok: bool)
    requires |bytes| <= SPAN_MAX && stack.Valid() && sink.Valid()
    modifies stack`size, stack.items, sink, sink.out
    ensures stack.Valid() && sink.Valid()
    ensures var e := EntryAt(cfg, bytes, d.entries + i * EntrySize(cfg));
            var pointers := if e.None? then [] else Pointers(cfg, bytes, e.value);
            var blocks := if e.None? then [] else EntryBlocks(bytes, e.value);
            && (ok ==> stack.Contents() == old(stack.Contents()) + pointers
                       && sink.Collection() == EmitBlocks(old(sink.Collection()), sink.out.Length, blocks))
            && (!ok ==>
                 && old(stack.size) + |pointers| > stack.items.Length
                 && sink.Collection() == old(sink.Collection()))
  {
    var e := EntryAt(cfg, bytes, d.entries + i * EntrySize(cfg));
    hide EntryAt;
    hide Pointers;
    hide EntryBlocks;
    if e.None? {
      return true;
    }
    ok := PushPointers(cfg, bytes, e.value, stack);
    if !ok {
      return;
    }
    EmitValues(bytes, e.value, sink);
  }

  /** The sink went on from `before` by these blocks, or, after a failure, by the first ones of them. */
  ghost predicate WentOn(before: Collected, capacity: nat, blocks: seq<Block>, all: bool, after: Collected) {
    exists k: nat :: k <= |blocks| && (all ==> k == |blocks|) && after == EmitBlocks(before, capacity, blocks[..k])
  }

  /** The entries of a directory in order, as far as the stack has room. */
  method ScanEntries(cfg: TiffConfig, bytes: seq<Byte>, d: Directory, stack: OffsetList, sink: BlockSink)
    returns (ok: bool)
    requires |bytes| <= SPAN_MAX && stack.Valid() && sink.Valid()
    modifies stack`size, stack.items, sink, sink.out
    ensures stack.Valid() && sink.Valid()
    ensures ok ==> stack.Contents() == old(stack.Contents()) + EntryPointers(cfg, bytes, d, d.count)
    ensures !ok ==> old(stack.size) + |EntryPointers(cfg, bytes, d, d.count)| > stack.items.Length
    ensures WentOn(old(sink.Collection()), sink.out.Length, ValueBlocks(cfg, bytes, d, d.count), ok, sink.Collection())
  {
    hide WentOn;
    hide EntryAt;
    hide Pointers;
    hide EntryBlocks;
    hide EntryPointers;
    hide ValueBlocks;
    ghost var before, capacity := sink.Collection(), sink.out.Length;
    NoEntriesYet(cfg, bytes, d);
    var i := 0;
    while i < d.count
      invariant 0 <= i <= d.count && stack.Valid() && sink.Valid()
      invariant stack.Contents() == old(stack.Contents()) + EntryPointers(cfg, bytes, d, i)
      invariant sink.Collection() == EmitBlocks(before, capacity, ValueBlocks(cfg, bytes, d, i))
    {
      ok := ScanEntry(cfg, bytes, d, i, stack, sink);
      MorePointers(cfg, bytes, d, i);
      EntriesGrow(cfg, bytes, d, i + 1, d.count);
      if !ok {
        EntriesGrow(cfg, bytes, d, i, d.count);
        StoppedThere(before, capacity, ValueBlocks(cfg, bytes, d, i), ValueBlocks(cfg, bytes, d, d.count), ok,
                     sink.Collection());
        return;
      }
      OneMoreEntry(cfg, bytes, d, i, before, capacity);
      i := i + 1;
    }
    ok := true;
    StoppedThere(before, capacity, ValueBlocks(cfg, bytes, d, i), ValueBlocks(cfg, bytes, d, d.count), ok,
                 sink.Collection());
  }

  lemma NoEntriesYet(cfg: TiffConfig, bytes: seq<Byte>, d: Directory)
    requires |bytes| <= SPAN_MAX
    ensures EntryPointers(cfg, bytes, d, 0) == [] && ValueBlocks(cfg, bytes, d, 0) == []
  {
  }

  lemma MorePointers(cfg: TiffConfig, bytes: seq<Byte>, d: Directory, i: nat)
    requires |bytes| <= SPAN_MAX
    ensures var e := EntryAt(cfg, bytes, d.entries + i * EntrySize(cfg));
            EntryPointers(cfg, bytes, d, i + 1)
            == EntryPointers(cfg, bytes, d, i) + if e.None? then [] else Pointers(cfg, bytes, e.value)
  {
    hide EntryAt;
    hide Pointers;
  }

  lemma StoppedThere(before: Collected, capacity: nat, done: seq<Block>, blocks: seq<Block>, all: bool,
                     after: Collected)
    requires done <= blocks && (all ==> done == blocks) && after == EmitBlocks(before, capacity, done)
    ensures WentOn(before, capacity, blocks, all, after)
  {
    assert blocks[..|done|] == done;
  }

  lemma OneMoreEntry(cfg: TiffConfig, bytes: seq<Byte>, d: Directory, i: nat, before: Collected, capacity: nat)
    requires |bytes| <= SPAN_MAX
    ensures var e := EntryAt(cfg, bytes, d.entries + i * EntrySize(cfg));
            EmitBlocks(before, capacity, ValueBlocks(cfg, bytes, d, i + 1))
            == EmitBlocks(EmitBlocks(before, capacity, ValueBlocks(cfg, bytes, d, i)), capacity,
                          if e.None? then [] else EntryBlocks(bytes, e.value))
  {
    hide EntryAt;
    hide EntryBlocks;
    var e := EntryAt(cfg, bytes, d.entries + i * EntrySize(cfg));
    EmitBlocksJoin(before, capacity, ValueBlocks(cfg, bytes, d, i),
                   if e.None? then [] else EntryBlocks(bytes, e.value));
  }

  /** One directory: pushes the next one, then scans the entries. */
  method ScanDirectory(cfg: TiffConfig, bytes: seq<Byte>, at: U64, stack: OffsetList, sink: BlockSink)
    returns (ok: bool)
    requires |bytes| <= SPAN_MAX && stack.Valid() && sink.Valid()
    modifies stack`size, stack.items, sink, sink.out
    ensures stack.Valid() && sink.Valid()
    ensures ok ==> stack.Contents() == old(stack.Contents()) + Successors(cfg, bytes, at)
    ensures !ok ==> old(stack.size) + |Successors(cfg, bytes, at)| > stack.items.Length
    ensures WentOn(old(sink.Collection()), sink.out.Length, DirectoryBlocks(cfg, bytes, at), ok, sink.Collection())
  {
    hide DirectoryAt;
    hide WentOn;
    hide EntryPointers;
    hide ValueBlocks;
    ghost var before := sink.Collection();
    var d := DirectoryAt(cfg, bytes, at);
    if d.None? {
      StoppedThere(before, sink.out.Length, [], [], true, sink.Collection());
      return true;
    }
    ok := stack.PushOffset(d.value.next);
    if !ok {
      StoppedThere(before, sink.out.Length, [], DirectoryBlocks(cfg, bytes, at), false, sink.Collection());
      return;
    }
    ok := ScanEntries(cfg, bytes, d.value, stack, sink);
  }

  // ----- the worklist ------------------------------------------------------------------------------------

  /** The number of offsets that the directories in `visited` lead to. */
  ghost function PushCount(cfg: TiffConfig, bytes: seq<Byte>, visited: seq<U64>): nat
    requires |bytes| <= SPAN_MAX
  {
    if visited == [] then 0
    else PushCount(cfg, bytes, visited[..|visited| - 1]) + |Successors(cfg, bytes, visited[|visited| - 1])|
  }

  /** The visited directories are distinct, in the file, and reachable. */
  ghost predicate Genuine(cfg: TiffConfig, bytes: seq<Byte>, first: U64, visited: seq<U64>)
    requires |bytes| <= SPAN_MAX
  {
    && (forall i, j :: 0 <= i < j < |visited| ==> visited[i] != visited[j])
    && (forall i :: 0 <= i < |visited| ==> Inside(bytes, visited[i]) && Reachable(cfg, bytes, first, visited[i]))
  }

  /**
   * What is reachable is visited, or still to come: the start and what visited directories lead to is
   * visited or on the stack.
   */
  ghost predicate Pending(cfg: TiffConfig, bytes: seq<Byte>, first: U64, visited: seq<U64>, stack: seq<U64>)
    requires |bytes| <= SPAN_MAX
  {
    && (Inside(bytes, first) ==> first in visited || first in stack)
    && (forall u, v :: u in visited && Leads(cfg, bytes, u, v) ==> v in visited || v in stack)
    && (forall v :: v in stack && Inside(bytes, v) ==> Reachable(cfg, bytes, first, v))
    && |stack| <= 1 + PushCount(cfg, bytes, visited)
  }

  lemma NothingPending(cfg: TiffConfig, bytes: seq<Byte>, first: U64, visited: seq<U64>)
    requires |bytes| <= SPAN_MAX && Genuine(cfg, bytes, first, visited) && Pending(cfg, bytes, first, visited, [])
    ensures forall v :: v in visited <==> Reachable(cfg, bytes, first, v)
  {
    hide Leads;
    assert Closed(cfg, bytes, first, visited);
    forall v | Reachable(cfg, bytes, first, v) ensures v in visited {
      ClosedHoldsReachable(cfg, bytes, first, visited, v);
    }
  }

  /** An offset outside the file, or one seen before, can be dropped. */
  lemma DropOffset(cfg: TiffConfig, bytes: seq<Byte>, first: U64, visited: seq<U64>, stack: seq<U64>, at: U64)
    requires |bytes| <= SPAN_MAX && Pending(cfg, bytes, first, visited, stack + [at])
             && (!Inside(bytes, at) || at in visited)
    ensures Pending(cfg, bytes, first, visited, stack)
  {
    hide Reachable;
    assert forall u, v :: u in visited && Leads(cfg, bytes, u, v) ==> Inside(bytes, v);
    hide Leads;
  }

  lemma VisitIsGenuine(cfg: TiffConfig, bytes: seq<Byte>, first: U64, visited: seq<U64>, at: U64)
    requires |bytes| <= SPAN_MAX && Genuine(cfg, bytes, first, visited)
    requires Inside(bytes, at) && at !in visited && Reachable(cfg, bytes, first, at)
    ensures Genuine(cfg, bytes, first, visited + [at])
  {
    hide Reachable;
  }

  lemma VisitedLeads(cfg: TiffConfig, bytes: seq<Byte>, visited: seq<U64>, stack: seq<U64>, at: U64, u: U64, v: U64)
    requires |bytes| <= SPAN_MAX && u in visited + [at] && Leads(cfg, bytes, u, v)
    requires u in visited && Leads(cfg, bytes, u, v) ==> v in visited || v in stack + [at]
    ensures v in visited + [at] || v in stack + Successors(cfg, bytes, at)
  {
    hide Successors;
  }

  /** A new directory is visited: what it leads to comes onto the stack. */
  lemma VisitOffset(cfg: TiffConfig, bytes: seq<Byte>, first: U64, visited: seq<U64>, stack: seq<U64>, at: U64)
    requires |bytes| <= SPAN_MAX && Genuine(cfg, bytes, first, visited)
             && Pending(cfg, bytes, first, visited, stack + [at])
    requires Inside(bytes, at) && at !in visited
    ensures Genuine(cfg, bytes, first, visited + [at])
    ensures Pending(cfg, bytes, first, visited + [at], stack + Successors(cfg, bytes, at))
  {
    var more, next := visited + [at], Successors(cfg, bytes, at);
    assert more[..|visited|] == visited;
    assert (stack + [at])[|stack|] == at;
    assert Reachable(cfg, bytes, first, at);
    VisitIsGenuine(cfg, bytes, first, visited, at);
    forall v | v in next && Inside(bytes, v) ensures Reachable(cfg, bytes, first, v) {
      ReachableStep(cfg, bytes, first, at, v);
    }
    forall u, v | u in more && Leads(cfg, bytes, u, v) ensures v in more || v in stack + next {
      VisitedLeads(cfg, bytes, visited, stack, at, u, v);
    }
    hide Leads;
    hide Reachable;
    hide Genuine;
    hide Successors;
  }

  /** More directories than can be remembered, or more offsets than can ever be on the stack. */
  ghost predicate TooMuch(cfg: TiffConfig, bytes: seq<Byte>, first: U64, visited: seq<U64>)
    requires |bytes| <= SPAN_MAX
  {
    || (|visited| == 256 && exists v :: v !in visited && Reachable(cfg, bytes, first, v))
    || PushCount(cfg, bytes, visited) > 256
  }

  lemma StackOverflows(cfg: TiffConfig, bytes: seq<Byte>, first: U64, visited: seq<U64>, stack: seq<U64>, at: U64)
    requires |bytes| <= SPAN_MAX && Pending(cfg, bytes, first, visited, stack + [at])
    requires |stack| + |Successors(cfg, bytes, at)| > MAX_STACK
    ensures TooMuch(cfg, bytes, first, visited + [at])
  {
    assert (visited + [at])[..|visited|] == visited;
    hide Successors;
    hide Leads;
    hide Reachable;
  }

  lemma VisitedOverflow(cfg: TiffConfig, bytes: seq<Byte>, first: U64, visited: seq<U64>, stack: seq<U64>, at: U64)
    requires |bytes| <= SPAN_MAX && Pending(cfg, bytes, first, visited, stack + [at])
    requires Inside(bytes, at) && at !in visited && |visited| == MAX_VISITED
    ensures TooMuch(cfg, bytes, first, visited)
  {
    assert (stack + [at])[|stack|] == at;
    hide Leads;
    assert Reachable(cfg, bytes, first, at);
  }

  lemma WentOnTogether(before: Collected, capacity: nat, a: seq<Block>, b: seq<Block>, all: bool, after: Collected)
    requires WentOn(EmitBlocks(before, capacity, a), capacity, b, all, after)
    ensures WentOn(before, capacity, a + b, all, after)
  {
    var k: nat :| k <= |b| && (all ==> k == |b|)
        && after == EmitBlocks(EmitBlocks(before, capacity, a), capacity, b[..k]);
    EmitBlocksJoin(before, capacity, a, b[..k]);
    assert (a + b)[..|a| + k] == a + b[..k];
  }

  lemma WentAll(before: Collected, capacity: nat, blocks: seq<Block>, after: Collected)
    requires WentOn(before, capacity, blocks, true, after)
    ensures after == EmitBlocks(before, capacity, blocks)
  {
    assert blocks[..|blocks|] == blocks;
  }

  lemma MoreBlocks(cfg: TiffConfig, bytes: seq<Byte>, visited: seq<U64>, at: U64)
    requires |bytes| <= SPAN_MAX
    ensures AllBlocks(cfg, bytes, visited + [at]) == AllBlocks(cfg, bytes, visited) + DirectoryBlocks(cfg, bytes, at)
  {
    assert (visited + [at])[..|visited|] == visited;
    hide DirectoryBlocks;
  }

  /** Works off the stack; every step visits a new directory or drops an offset. */
  method WalkDirectories(cfg: TiffConfig, bytes: seq<Byte>, first: U64, stack: OffsetList, visited: OffsetList,
                         sink: BlockSink) returns (ok: bool)
    requires |bytes| <= SPAN_MAX && stack.Valid() && visited.Valid() && sink.Valid()
    requires stack != visited && stack.items != visited.items && stack.items.Length == MAX_STACK
             && visited.items.Length == MAX_VISITED
    requires visited.Contents() == [] && stack.Contents() == NonZero(first)
    modifies stack`size, stack.items, visited`size, visited.items, sink, sink.out
    ensures visited.Valid() && sink.Valid() && Genuine(cfg, bytes, first, visited.Contents())
    ensures ok ==> forall v :: v in visited.Contents() <==> Reachable(cfg, bytes, first, v)
    ensures !ok ==> TooMuch(cfg, bytes, first, visited.Contents())
    ensures WentOn(old(sink.Collection()), sink.out.Length, AllBlocks(cfg, bytes, visited.Contents()), ok,
                   sink.Collection())
  {
    ghost var before, capacity := sink.Collection(), sink.out.Length;
    WalkBegins(cfg, bytes, first);
    hide Genuine;
    hide Pending;
    hide WentOn;
    hide AllBlocks;
    hide DirectoryBlocks;
    hide Successors;
    hide TooMuch;
    while stack.size > 0
      invariant stack.Valid() && visited.Valid() && sink.Valid()
      invariant Genuine(cfg, bytes, first, visited.Contents())
                && Pending(cfg, bytes, first, visited.Contents(), stack.Contents())
      invariant sink.Collection() == EmitBlocks(before, capacity, AllBlocks(cfg, bytes, visited.Contents()))
      decreases MAX_VISITED - visited.size, stack.size
    {
      ok := VisitNext(cfg, bytes, first, stack, visited, sink, before);
      if !ok {
        return;
      }
    }
    ok := true;
    NothingPending(cfg, bytes, first, visited.Contents());
    StoppedThere(before, capacity, AllBlocks(cfg, bytes, visited.Contents()), AllBlocks(cfg, bytes, visited.Contents()),
                 ok, sink.Collection());
  }

  lemma WalkBegins(cfg: TiffConfig, bytes: seq<Byte>, first: U64)
    requires |bytes| <= SPAN_MAX
    ensures Genuine(cfg, bytes, first, []) && Pending(cfg, bytes, first, [], NonZero(first))
            && AllBlocks(cfg, bytes, []) == []
  {
    if Inside(bytes, first) {
      ReachableStart(cfg, bytes, first);
    }
    hide Reachable;
    hide Leads;
  }

  /** Takes one offset from the stack. */
  method VisitNext(cfg: TiffConfig, bytes: seq<Byte>, first: U64, stack: OffsetList, visited: OffsetList,
                   sink: BlockSink, ghost before: Collected)
    returns (ok: bool)
    requires |bytes| <= SPAN_MAX && stack.Valid() && visited.Valid() && sink.Valid() && stack.size > 0
    requires stack != visited && stack.items != visited.items && stack.items.Length == MAX_STACK
             && visited.items.Length == MAX_VISITED
    requires Genuine(cfg, bytes, first, visited.Contents())
             && Pending(cfg, bytes, first, visited.Contents(), stack.Contents())
    requires sink.Collection() == EmitBlocks(before, sink.out.Length, AllBlocks(cfg, bytes, visited.Contents()))
    modifies stack`size, stack.items, visited`size, visited.items, sink, sink.out
    ensures stack.Valid() && visited.Valid() && sink.Valid() && Genuine(cfg, bytes, first, visited.Contents())
    ensures ok ==> Pending(cfg, bytes, first, visited.Contents(), stack.Contents())
    ensures ok ==> sink.Collection() == EmitBlocks(before, sink.out.Length, AllBlocks(cfg, bytes, visited.Contents()))
    ensures ok ==>
              visited.size > old(visited.size)
              || (visited.size == old(visited.size) && stack.size < old(stack.size))
    ensures !ok ==> TooMuch(cfg, bytes, first, visited.Contents())
    ensures !ok ==> WentOn(before, sink.out.Length, AllBlocks(cfg, bytes, visited.Contents()), false, sink.Collection())
  {
    hide Genuine;
    hide Pending;
    hide WentOn;
    hide AllBlocks;
    hide DirectoryBlocks;
    hide Successors;
    hide TooMuch;
    ghost var seen := visited.Contents();
    var at := stack.Pop();
    ghost var rest := stack.Contents();
    if at == 0 || at >= |bytes| {
      DropOffset(cfg, bytes, first, seen, rest, at);
      return true;
    }
    var known := visited.Holds(at);
    if known {
      DropOffset(cfg, bytes, first, seen, rest, at);
      return true;
    }
    if visited.size >= visited.items.Length {
      VisitedOverflow(cfg, bytes, first, seen, rest, at);
      StoppedThere(before, sink.out.Length, AllBlocks(cfg, bytes, seen), AllBlocks(cfg, bytes, seen), false,
                   sink.Collection());
      return false;
    }
    var _ := visited.PushOffset(at);
    VisitOffset(cfg, bytes, first, seen, rest, at);
    MoreBlocks(cfg, bytes, seen, at);
    ok := ScanDirectory(cfg, bytes, at, stack, sink);
    WentOnTogether(before, sink.out.Length, AllBlocks(cfg, bytes, seen), DirectoryBlocks(cfg, bytes, at), ok,
                   sink.Collection());
    if ok {
      WentAll(before, sink.out.Length, AllBlocks(cfg, bytes, visited.Contents()), sink.Collection());
    } else {
      StackOverflows(cfg, bytes, first, seen, rest, at);
    }
  }

  // ----- the whole scan -------------------------------------------------------------------------------------

  /** What the header of a file says: it is refused, possibly after the file itself was emitted, or where to begin. */
  datatype Start = Refused(status: ScanStatus, emitted: bool) | Begin(cfg: TiffConfig, first: U64)

  function StartOf(bytes: seq<Byte>): Start {
    if |bytes| < 8 then Refused(Malformed, false)
    else if !(bytes[0] == bytes[1] == 0x49) && !(bytes[0] == bytes[1] == 0x4D) then Refused(Unsupported, false)
    else
      var little := bytes[0] == 0x49;
      var version := Read16(TiffConfig(little, false), bytes, 2).value;
      if version == 43 then StartBig(TiffConfig(little, true), bytes)
      else if version in {42, 0x0055, 0x4F52, 0x5352}
          then Begin(TiffConfig(little, false), Read32(TiffConfig(little, false), bytes, 4).value)
      else Refused(Unsupported, false)
  }

  function StartBig(cfg: TiffConfig, bytes: seq<Byte>): Start
    requires |bytes| >= 8
  {
    if |bytes| < 16 || Read16(cfg, bytes, 4).value != 8
        || Read16(cfg, bytes, 6).value != 0 then Refused(Malformed, true)
    else Begin(cfg, Read64(cfg, bytes, 8).value)
  }

  /** The file itself, as one block. */
  function FileBlock(bytes: seq<Byte>): (b: Block)
    requires |bytes| <= SPAN_MAX
    ensures InFile(bytes, b)
  {
    NO_BLOCK.(format := Tiff, kind := Exif, outerSize := |bytes|, dataSize := |bytes|)
  }

  /** The blocks of the file: the file itself, then those of the visited directories. */
  function FoundBlocks(cfg: TiffConfig, bytes: seq<Byte>, visited: seq<U64>): (r: seq<Block>)
    requires |bytes| <= SPAN_MAX
    ensures forall i :: 0 <= i < |r| ==> InFile(bytes, r[i])
  {
    [FileBlock(bytes)] + AllBlocks(cfg, bytes, visited)
  }

  ghost predicate AllIn(bytes: seq<Byte>, blocks: seq<Block>) {
    forall i :: 0 <= i < |blocks| ==> InFile(bytes, blocks[i])
  }

  lemma {:induction false} KeptInFile(bytes: seq<Byte>, capacity: nat, blocks: seq<Block>)
    requires AllIn(bytes, blocks)
    ensures AllIn(bytes, EmitBlocks(NOTHING, capacity, blocks).blocks)
  {
    hide InFile;
    if blocks != [] {
      var init, last := blocks[..|blocks| - 1], blocks[|blocks| - 1];
      assert AllIn(bytes, init) && InFile(bytes, last);
      KeptInFile(bytes, capacity, init);
      var before := EmitBlocks(NOTHING, capacity, init);
      assert EmitBlocks(NOTHING, capacity, blocks) == Emit(before, capacity, last);
    }
  }

  /** What a scan has collected lies in the file. */
  lemma CollectedInFile(cfg: TiffConfig, bytes: seq<Byte>, visited: seq<U64>, capacity: nat, all: bool,
                        after: Collected)
    requires |bytes| <= SPAN_MAX && WentOn(NOTHING, capacity, FoundBlocks(cfg, bytes, visited), all, after)
    ensures AllIn(bytes, after.blocks)
  {
    var blocks := FoundBlocks(cfg, bytes, visited);
    assert AllIn(bytes, blocks);
    hide InFile;
    hide FoundBlocks;
    hide EmitBlocks;
    var k: nat :| k <= |blocks| && after == EmitBlocks(NOTHING, capacity, blocks[..k]);
    KeptInFile(bytes, capacity, blocks[..k]);
  }

  /**
   * After a valid header, every directory is visited at most once and every visited one is reachable;
   * all emitted ranges lie in the file. Unless the file is reported as malformed, the visited
   * directories are exactly the reachable ones, and the blocks are exactly theirs.
   */
  method ScanTiff(bytes: seq<Byte>, out: array<Block>) returns (sink: BlockSink, ghost visited: seq<U64>)
    requires |bytes| <= SPAN_MAX
    modifies out
    ensures sink.Valid() && sink.out == out
    ensures AllIn(bytes, sink.Collection().blocks)
    ensures StartOf(bytes).Refused? ==>
              var blocks := if StartOf(bytes).emitted then [FileBlock(bytes)] else [];
              sink.Collection() == EmitBlocks(NOTHING, out.Length, blocks).(status := StartOf(bytes).status)
    ensures StartOf(bytes).Begin? ==>
              var start := StartOf(bytes);
              var blocks := FoundBlocks(start.cfg, bytes, visited);
              && |visited| <= 256 && Genuine(start.cfg, bytes, start.first, visited)
              && (sink.status != Malformed ==>
                    (forall v :: v in visited <==> Reachable(start.cfg, bytes, start.first, v))
                    && sink.Collection() == EmitBlocks(NOTHING, out.Length, blocks))
              && (sink.status == Malformed ==>
                    TooMuch(start.cfg, bytes, start.first, visited)
                    && exists c ::
                         && WentOn(NOTHING, out.Length, blocks, false, c)
                         && sink.Collection() == c.(status := Malformed))
  {
    sink := new BlockSink(out);
    visited := [];
    var start := StartOf(bytes);
    var file := FileBlock(bytes);
    OneBlock(NOTHING, out.Length, file);
    KeptInFile(bytes, out.Length, [file]);
    hide StartOf;
    if start.Refused? {
      if start.emitted {
        sink.SinkEmit(file);
      }
      sink.status := start.status;
      return;
    }
    sink.SinkEmit(file);
    visited := FollowDirectories(start.cfg, bytes, start.first, sink);
  }

  lemma OneBlock(c: Collected, capacity: nat, b: Block)
    ensures EmitBlocks(c, capacity, [b]) == Emit(c, capacity, b) && EmitBlocks(c, capacity, []) == c
  {
    hide Emit;
    assert [b][..0] == [];
    assert EmitBlocks(c, capacity, [b]) == Emit(EmitBlocks(c, capacity, []), capacity, b);
  }

  /** The scan after the header. */
  method FollowDirectories(cfg: TiffConfig, bytes: seq<Byte>, first: U64, sink: BlockSink)
    returns (ghost seen: seq<U64>)
    requires |bytes| <= SPAN_MAX && sink.Valid()
             && sink.Collection() == EmitBlocks(NOTHING, sink.out.Length, [FileBlock(bytes)])
    modifies sink, sink.out
    ensures sink.Valid() && |seen| <= MAX_VISITED && Genuine(cfg, bytes, first, seen)
    ensures AllIn(bytes, sink.Collection().blocks)
    ensures sink.status != Malformed ==>
              (forall v :: v in seen <==> Reachable(cfg, bytes, first, v))
              && sink.Collection() == EmitBlocks(NOTHING, sink.out.Length, FoundBlocks(cfg, bytes, seen))
    ensures sink.status == Malformed ==>
              TooMuch(cfg, bytes, first, seen)
              && exists c ::
                   && WentOn(NOTHING, sink.out.Length, FoundBlocks(cfg, bytes, seen), false, c)
                   && sink.Collection() == c.(status := Malformed)
  {
    var stack := new OffsetList(MAX_STACK);
    var visited := new OffsetList(MAX_VISITED);
    var _ := stack.PushOffset(first);
    assert stack.Contents() == NonZero(first) && visited.Contents() == [] && sink.Valid()
        && NOTHING.status != Malformed;
    hide *;
    var ok := WalkDirectories(cfg, bytes, first, stack, visited, sink);
    seen := visited.Contents();
    ReportFound(cfg, bytes, seen, ok, sink);
  }

  /** Reports a walk that was cut short as malformed; what it has found stays. */
  method ReportFound(cfg: TiffConfig, bytes: seq<Byte>, ghost seen: seq<U64>, ok: bool, sink: BlockSink)
    requires |bytes| <= SPAN_MAX && sink.Valid()
    requires WentOn(EmitBlocks(NOTHING, sink.out.Length, [FileBlock(bytes)]), sink.out.Length,
                    AllBlocks(cfg, bytes, seen), ok, sink.Collection())
    modifies sink`status
    ensures sink.Valid() && AllIn(bytes, sink.Collection().blocks) && (sink.status == Malformed <==> !ok)
    ensures ok ==> sink.Collection() == EmitBlocks(NOTHING, sink.out.Length, FoundBlocks(cfg, bytes, seen))
    ensures !ok ==> exists c :: WentOn(NOTHING, sink.out.Length, FoundBlocks(cfg, bytes, seen), false, c)
                                && sink.Collection() == c.(status := Malformed)
  {
    ghost var found, c := FoundBlocks(cfg, bytes, seen), sink.Collection();
    assert NOTHING.status != Malformed && c.status == sink.status;
    FoundIsJoined(cfg, bytes, seen);
    hide *;
    WentOnTogether(NOTHING, sink.out.Length, [FileBlock(bytes)], AllBlocks(cfg, bytes, seen), ok, c);
    CollectedInFile(cfg, bytes, seen, sink.out.Length, ok, c);
    NotMalformedYet(NOTHING, sink.out.Length, found, ok, c);
    if ok {
      WentAll(NOTHING, sink.out.Length, found, c);
    } else {
      Object(sink);
    }
  }

  lemma FoundIsJoined(cfg: TiffConfig, bytes: seq<Byte>, visited: seq<U64>)
    requires |bytes| <= SPAN_MAX
    ensures FoundBlocks(cfg, bytes, visited) == [FileBlock(bytes)] + AllBlocks(cfg, bytes, visited)
  {
  }

  method Object(sink: BlockSink)
    requires sink.Valid()
    modifies sink`status
    ensures sink.Valid() && sink.status == Malformed
            && sink.Collection() == old(sink.Collection()).(status := Malformed)
  {
    sink.status := Malformed;
  }

  lemma {:induction false} EmittingIsNotMalformed(c: Collected, capacity: nat, blocks: seq<Block>)
    requires c.status != Malformed
    ensures EmitBlocks(c, capacity, blocks).status != Malformed
  {
    if blocks != [] {
      EmittingIsNotMalformed(c, capacity, blocks[..|blocks| - 1]);
    }
  }

  lemma NotMalformedYet(before: Collected, capacity: nat, blocks: seq<Block>, all: bool, after: Collected)
    requires WentOn(before, capacity, blocks, all, after) && before.status != Malformed
    ensures after.status != Malformed
  {
    var k: nat :| k <= |blocks| && after == EmitBlocks(before, capacity, blocks[..k]);
    EmittingIsNotMalformed(before, capacity, blocks[..k]);
  }
}
