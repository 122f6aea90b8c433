/**
 * The byte arena: an append-only buffer with a size ceiling, in a block of memory that moves when it
 * grows. Spans are offsets, so they stay meaningful; bytes may even be appended from the arena itself.
 */
module Arena {
  import opened Bytes
  import opened Alignment
  import opened ByteMemory

  datatype ByteSpan = ByteSpan(offset: U32, size: U32)

  const NO_SPAN := ByteSpan(0, 0)

  /** The value of an arena. */
  datatype State = State(buffer: seq<Byte>, maxSize: U64, limitExceeded: bool)

  const NEW_ARENA := State([], U32_MAX, false)

  // ----- requests -------------------------------------------------------------------------------------------

  datatype Request =
    | Append(bytes: seq<Byte>)
    | Allocate(size: U32, alignment: U32)
    | Constrain(limit: U64)
    | Reserve(capacity: U64)

  /** Where the bytes of a request would start, if it asks for any and can be aligned. */
  function StartOf(s: State, r: Request): Option<nat> {
    match r
    case Append(_) => Some(|s.buffer|)
    case Allocate(_, alignment) =>
      if |s.buffer| > U64_MAX || AlignUp(|s.buffer|, alignment).None? then None
      else Some(AlignUp(|s.buffer|, alignment).value)
    case _ => None
  }

  function SizeOf(r: Request): nat {
    match r case Append(bytes) => |bytes| case Allocate(size, _) => size case _ => 0
  }

  /** A request for bytes is granted if it can be represented and keeps to the ceiling. */
  predicate Granted(s: State, r: Request) {
    var start := StartOf(s, r);
    start.Some? && |s.buffer| <= U32_MAX && SizeOf(r) <= U32_MAX && start.value <= U32_MAX
    && start.value + SizeOf(r) <= U32_MAX && start.value + SizeOf(r) <= s.maxSize
  }

  function Zeros(n: nat): (r: seq<Byte>)
    ensures |r| == n && forall i :: 0 <= i < n ==> r[i] == 0
  {
    seq(n, _ => 0 as Byte)
  }

  /** The state after a request; what is allocated ends at the end of its span. */
  function After(s: State, r: Request): State {
    match r
    case Constrain(limit) =>
      var lowest := if limit != 0 && limit < s.maxSize then limit else s.maxSize;
      State(s.buffer, lowest, s.limitExceeded || |s.buffer| > lowest)
    case Reserve(capacity) => s.(limitExceeded := s.limitExceeded || capacity > s.maxSize)
    case Append(bytes) => if Granted(s, r) then s.(buffer := s.buffer + bytes) else s.(limitExceeded := true)
    case Allocate(size, _) =>
      if Granted(s, r) then s.(buffer := s.buffer + Zeros(Max(StartOf(s, r).value + size - |s.buffer|, 0)))
      else s.(limitExceeded := true)
  }

  /** The span that a request returns. */
  function SpanOf(s: State, r: Request): ByteSpan {
    if Granted(s, r) then ByteSpan(StartOf(s, r).value, SizeOf(r)) else NO_SPAN
  }

  /** The bytes of a span; none if it leaves the buffer. */
  function Resolve(s: State, span: ByteSpan): seq<Byte> {
    if CheckedRange(span.offset, span.size, |s.buffer|) then s.buffer[span.offset..span.offset + span.size] else []
  }

  // ----- aliasing -------------------------------------------------------------------------------------------

  /** The test of the address range: does the source lie in the `size` bytes at `base`? */
  predicate Aliases(base: nat, size: nat, source: nat, n: nat) {
    n != 0 && size != 0 && source >= base && source < base + size && n <= base + size - source
  }

  /**
   * `n` bytes at `source` are bytes of one object: live, and either bytes of the arena or of another
   * object, which cannot overlap the block of the arena.
   */
  ghost predicate IsSource(cells: Cells, base: nat, size: nat, capacity: nat, source: nat, n: nat) {
    && Live(cells, source, n)
    && (n > 0 ==> (base <= source && source + n <= base + size) || source + n <= base || base + capacity <= source)
  }

  /** The test tells bytes of the arena from all others. */
  lemma AliasTestDecides(cells: Cells, base: nat, size: nat, capacity: nat, source: nat, n: nat)
    requires size <= capacity && IsSource(cells, base, size, capacity, source, n)
    ensures Aliases(base, size, source, n) <==> exists a :: Within(a, source, n) && Within(a, base, size)
    ensures !Aliases(base, size, source, n) ==> forall a :: Within(a, source, n) ==> !Within(a, base, capacity)
  {
    if Aliases(base, size, source, n) {
      assert Within(source, source, n) && Within(source, base, size);
    }
  }

  /** A live block and one in unused memory lie apart. */
  lemma BlocksApart(cells: Cells, base: nat, capacity: nat, block: nat, n: nat)
    requires Live(cells, base, capacity) && Placeable(cells, block, n)
    ensures Apart(block, n, base, capacity)
  {
    if n > 0 && capacity > 0 {
      assert base in cells;
      assert base <= block < base + capacity ==> block in cells;
    }
  }

  /** Allocating, copying into the new block and freeing the old one changes nothing else. */
  lemma MovedKeeps(before: Cells, provided: Cells, moved: Cells, after: Cells, base: nat, capacity: nat, block: nat,
                   size: nat)
    requires Placeable(before, block, size)
    requires KeptOutside(before, provided, 0, 0) && KeptOutside(provided, moved, block, size)
             && KeptOutside(moved, after, base, capacity)
    ensures KeptOutside(before, after, base, capacity)
  {
    forall a | a in before && !Within(a, base, capacity) ensures a in after && after[a] == before[a] {
      assert !Within(a, 0, 0) && !Within(a, block, size);
    }
  }

  /** The block is the old one, or lies where nothing was live. */
  ghost predicate SameOrNew(before: Cells, base: nat, capacity: nat, block: nat, grown: nat) {
    (block == base && grown == capacity) || forall a :: Within(a, block, grown) ==> a !in before
  }

  /** A write into the block that the arena has after it has grown changes nothing outside the old one. */
  lemma WriteKeeps(before: Cells, grown: Cells, after: Cells, base: nat, capacity: nat, block: nat, blockSize: nat,
                   start: nat, n: nat)
    requires KeptOutside(before, grown, base, capacity) && KeptOutside(grown, after, start, n)
    requires SameOrNew(before, base, capacity, block, blockSize) && block <= start && start + n <= block + blockSize
    ensures KeptOutside(before, after, base, capacity)
  {
    forall a | a in before && !Within(a, base, capacity) ensures a in after && after[a] == before[a] {
      assert Within(a, start, n) ==> Within(a, block, blockSize);
    }
  }

  /** Where the source is when the arena has grown. */
  function SourceNow(base: nat, size: nat, source: nat, n: nat, block: nat): nat {
    if Aliases(base, size, source, n) then block + (source - base) else source
  }

  /** There it still has the bytes it had. */
  lemma SourceSurvives(before: Cells, grown: Cells, base: nat, size: nat, capacity: nat, source: nat, n: nat,
                       block: nat)
    requires size <= capacity && Live(before, base, size) && IsSource(before, base, size, capacity, source, n)
    requires KeptOutside(before, grown, base, capacity)
    requires Live(grown, block, size) && BytesAt(grown, block, size) == BytesAt(before, base, size)
    ensures var now := SourceNow(base, size, source, n, block);
            Live(grown, now, n) && BytesAt(grown, now, n) == BytesAt(before, source, n)
  {
    if Aliases(base, size, source, n) {
      var k := source - base;
      assert BytesAt(before, source, n) == BytesAt(before, base, size)[k..k + n];
      forall a | block + k <= a < block + k + n ensures a in grown {
        assert block <= a < block + size;
      }
      assert BytesAt(grown, block + k, n) == BytesAt(grown, block, size)[k..k + n];
    } else {
      AliasTestDecides(before, base, size, capacity, source, n);
      KeptBytes(before, grown, base, capacity, source, n);
    }
  }

  // ----- the arena ----------------------------------------------------------------------------------------------

  class ByteArena {
    const memory: Memory
    // The block is `[base, base + capacity)`; an arena without one has base 0. Its first `size` bytes are in use.
    var base: nat
    var size: nat
    var capacity: nat
    var maxSizeBytes: U64
    var limitExceeded: bool

    ghost predicate Valid()
      reads this, memory
    {
      size <= capacity && Live(memory.cells, base, capacity) && (capacity > 0 ==> base > 0)
    }

    ghost function Contents(): seq<Byte>
      requires Valid()
      reads this, memory
    {
      BytesAt(memory.cells, base, size)
    }

    ghost function Value(): State
      requires Valid()
      reads this, memory
    {
      State(Contents(), maxSizeBytes, limitExceeded)
    }

    constructor (memory: Memory)
      ensures Valid() && Value() == NEW_ARENA && this.memory == memory
    {
      this.memory := memory;
      base, size, capacity, maxSizeBytes, limitExceeded := 0, 0, 0, U32_MAX, false;
    }

    method Clear()
      requires Valid()
      modifies this
      ensures Valid() && Value() == old(Value()).(buffer := [], limitExceeded := false)
    {
      size, limitExceeded := 0, false;
    }

    /** Moves the contents to a new block of at least `atLeast` bytes and gives the old one back. */
    method Reallocate(atLeast: nat)
      requires Valid() && atLeast > capacity
      modifies this, memory
      ensures Valid() && Value() == old(Value()) && size == old(size) && capacity >= atLeast
      ensures KeptOutside(old(memory.cells), memory.cells, old(base), old(capacity))
      ensures forall a :: Within(a, old(base), old(capacity)) ==> a !in memory.cells
      ensures forall a :: Within(a, base, capacity) ==> a !in old(memory.cells)
    {
      ghost var before := memory.cells;
      var grown: nat :| grown >= atLeast;
      var block := memory.Allocate(grown);
      ghost var provided := memory.cells;
      KeptBytes(before, provided, 0, 0, base, capacity);
      KeptBytes(before, provided, 0, 0, base, size);
      BlocksApart(before, base, capacity, block, grown);
      memory.Move(block, base, size);
      ghost var moved := memory.cells;
      memory.Free(base, capacity);
      KeptBytes(moved, memory.cells, base, capacity, block, grown);
      KeptBytes(moved, memory.cells, base, capacity, block, size);
      MovedKeeps(before, provided, moved, memory.cells, base, capacity, block, size);
      base, capacity := block, grown;
    }

    /** Makes the buffer longer; the new bytes are zero. If the block moves, the old one is live no more. */
    method Resize(newSize: nat)
      requires Valid() && newSize >= size
      modifies this, memory
      ensures Valid() && size == newSize
              && Value() == old(Value()).(buffer := old(Contents()) + Zeros(newSize - old(size)))
      ensures KeptOutside(old(memory.cells), memory.cells, old(base), old(capacity))
      ensures (base == old(base) && capacity == old(capacity))
              || forall a :: Within(a, old(base), old(capacity)) ==> a !in memory.cells
      ensures SameOrNew(old(memory.cells), old(base), old(capacity), base, capacity)
    {
      if newSize > capacity {
        Reallocate(newSize);
      }
      assert SameOrNew(old(memory.cells), old(base), old(capacity), base, capacity);
      assert KeptOutside(old(memory.cells), memory.cells, old(base), old(capacity));
      hide SameOrNew;
      hide KeptOutside;
      ghost var n, grown := newSize - size, memory.cells;
      memory.Write(base + size, Zeros(newSize - size));
      WriteKeeps(old(memory.cells), grown, memory.cells, old(base), old(capacity), base, capacity, base + size, n);
      KeptBytes(grown, memory.cells, base + size, n, base, size);
      JoinedBytes(memory.cells, base, size, n);
      size := newSize;
    }

    method ReserveCapacity(atLeast: U64)
      requires Valid()
      modifies this, memory
      ensures Valid() && Value() == After(old(Value()), Reserve(atLeast))
      ensures KeptOutside(old(memory.cells), memory.cells, old(base), old(capacity))
    {
      if atLeast > maxSizeBytes {
        limitExceeded := true;
        return;
      }
      if atLeast > capacity {
        Reallocate(atLeast);
      }
    }

    method ConstrainMaxSize(limit: U64)
      requires Valid()
      modifies this
      ensures Valid() && Value() == After(old(Value()), Constrain(limit))
    {
      if limit != 0 && limit < maxSizeBytes {
        maxSizeBytes := limit;
      }
      if size > maxSizeBytes {
        limitExceeded := true;
      }
    }

    /**
     * Appends the `n` bytes at an address. If they lie in the arena, their offset is noted before the
     * buffer grows, and they are copied from where they have moved to.
     */
    method AppendBytes(source: nat, n: nat) returns (span: ByteSpan)
      requires Valid() && IsSource(memory.cells, base, size, capacity, source, n)
      modifies this, memory
      ensures Valid() && Value() == After(old(Value()), Append(old(BytesAt(memory.cells, source, n))))
      ensures span == SpanOf(old(Value()), Append(old(BytesAt(memory.cells, source, n))))
      ensures KeptOutside(old(memory.cells), memory.cells, old(base), old(capacity))
    {
      var oldSize := size;
      if oldSize > U32_MAX || n > U32_MAX {
        limitExceeded := true;
        return NO_SPAN;
      }
      var newSize := oldSize + n;
      if newSize > U32_MAX || newSize > maxSizeBytes {
        limitExceeded := true;
        return NO_SPAN;
      }
      GrowAndCopy(source, n, newSize);
      span := ByteSpan(oldSize, n);
    }

    /** Notes where the source lies, grows the buffer, and copies from where the source is then. */
    method GrowAndCopy(source: nat, n: nat, newSize: nat)
      requires Valid() && IsSource(memory.cells, base, size, capacity, source, n) && newSize == size + n
      modifies this, memory
      ensures Valid() && maxSizeBytes == old(maxSizeBytes) && limitExceeded == old(limitExceeded)
      ensures Contents() == old(Contents()) + old(BytesAt(memory.cells, source, n))
      ensures KeptOutside(old(memory.cells), memory.cells, old(base), old(capacity))
    {
      var oldSize := size;
      var inside := Aliases(base, oldSize, source, n);
      var sourceOffset := if inside then source - base else 0;
      ghost var before := memory.cells;
      Resize(newSize);
      ghost var grown := memory.cells;
      assert BytesAt(grown, base, oldSize) == Contents()[..oldSize] == old(Contents());
      SourceSurvives(before, grown, old(base), oldSize, old(capacity), source, n, base);
      var from := if inside then base + sourceOffset else source;
      assert from == SourceNow(old(base), oldSize, source, n, base);
      assert n == 0 ==> Contents() == old(Contents()) + BytesAt(before, source, n);
      assert size <= capacity;
      hide *;
      if n != 0 {
        CopyToEnd(from, n, oldSize);
        WriteKeeps(before, grown, memory.cells, old(base), old(capacity), base, capacity, base + oldSize, n);
      }
    }

    method CopyToEnd(from: nat, n: nat, oldSize: nat)
      requires Valid() && Live(memory.cells, from, n) && size == oldSize + n
      modifies memory
      ensures Valid() && Contents() == old(Contents()[..oldSize]) + old(BytesAt(memory.cells, from, n))
      ensures KeptOutside(old(memory.cells), memory.cells, base + oldSize, n)
    {
      ghost var grown := memory.cells;
      memory.Move(base + oldSize, from, n);
      KeptBytes(grown, memory.cells, base + oldSize, n, base, oldSize);
      JoinedBytes(memory.cells, base, oldSize, n);
    }

    method AllocateBytes(n: U32, alignment: U32) returns (span: ByteSpan)
      requires Valid()
      modifies this, memory
      ensures Valid() && Value() == After(old(Value()), Allocate(n, alignment))
      ensures span == SpanOf(old(Value()), Allocate(n, alignment))
      ensures KeptOutside(old(memory.cells), memory.cells, old(base), old(capacity))
    {
      var oldSize := size;
      if oldSize > U32_MAX {
        limitExceeded := true;
        return NO_SPAN;
      }
      var start := AlignUp(oldSize, alignment);
      if start.None? || start.value > U32_MAX {
        limitExceeded := true;
        return NO_SPAN;
      }
      AlignUpIsLeast(oldSize, alignment, 0);
      hide AlignUp;
      var total := start.value + n;
      if total > U32_MAX || total > maxSizeBytes {
        limitExceeded := true;
        return NO_SPAN;
      }
      Resize(total);
      span := ByteSpan(start.value, n);
    }

    /** The bytes of a span, read where they are now. */
    method SpanBytes(span: ByteSpan) returns (bytes: seq<Byte>)
      requires Valid()
      ensures bytes == Resolve(Value(), span)
    {
      if span.offset > size {
        return [];
      }
      if span.size > size - span.offset {
        return [];
      }
      bytes := BytesAt(memory.cells, base + span.offset, span.size);
      assert bytes == Contents()[span.offset..span.offset + span.size];
    }
  }

  // ----- runs ---------------------------------------------------------------------------------------------------

  ghost function AfterRun(s: State, run: seq<Request>): State {
    if run == [] then s else After(AfterRun(s, run[..|run| - 1]), run[|run| - 1])
  }

  lemma {:induction false} PrefixRuns(s: State, run: seq<Request>, m: nat)
    requires m <= |run|
    ensures AfterRun(s, run[..m]).buffer <= AfterRun(s, run).buffer
    ensures AfterRun(s, run).maxSize <= AfterRun(s, run[..m]).maxSize
    ensures AfterRun(s, run[..m]).limitExceeded ==> AfterRun(s, run).limitExceeded
  {
    if m == |run| {
      assert run[..m] == run;
    } else {
      var init := run[..|run| - 1];
      PrefixRuns(s, init, m);
      assert init[..m] == run[..m];
      StepKeeps(AfterRun(s, init), run[|run| - 1]);
      hide After;
    }
  }

  lemma StepKeeps(s: State, r: Request)
    ensures s.buffer <= After(s, r).buffer && After(s, r).maxSize <= s.maxSize
            && (s.limitExceeded ==> After(s, r).limitExceeded)
  {
  }

  /** The span that request `k` of a run returns. */
  ghost function RunSpan(s: State, run: seq<Request>, k: nat): ByteSpan
    requires k < |run|
  {
    SpanOf(AfterRun(s, run[..k]), run[k])
  }

  /** What a request puts into its span: its bytes, or zeros. */
  ghost function RequestBytes(r: Request): seq<Byte> {
    match r case Append(bytes) => bytes case Allocate(size, _) => Zeros(size) case _ => []
  }

  /** A granted request ends the buffer with its span. */
  lemma SpanIsAtEnd(s: State, r: Request)
    requires Granted(s, r)
    ensures var span := SpanOf(s, r);
            && |s.buffer| <= span.offset && span.offset + span.size == |After(s, r).buffer|
            && After(s, r).limitExceeded == s.limitExceeded && After(s, r).maxSize == s.maxSize
    ensures Resolve(After(s, r), SpanOf(s, r)) == RequestBytes(r)
  {
    var start, n := StartOf(s, r).value, SizeOf(r);
    if r.Append? {
      assert (s.buffer + r.bytes)[start..start + n] == r.bytes;
    } else {
      AlignUpIsLeast(|s.buffer|, r.alignment, 0);
      assert (s.buffer + Zeros(start + n - |s.buffer|))[start..start + n] == Zeros(n);
    }
    hide AlignUp;
  }

  lemma SpanAfterRun(s: State, run: seq<Request>, k: nat)
    requires k < |run| && RunSpan(s, run, k).size > 0
    ensures var span := RunSpan(s, run, k);
            && span.offset + span.size <= |AfterRun(s, run).buffer|
              && Resolve(AfterRun(s, run), span) == RequestBytes(run[k])
    ensures |AfterRun(s, run[..k]).buffer| <= RunSpan(s, run, k).offset
    ensures RunSpan(s, run, k).offset + RunSpan(s, run, k).size == |AfterRun(s, run[..k + 1]).buffer|
  {
    PrefixRuns(s, run, k + 1);
    assert run[..k + 1][..k] == run[..k];
    SpanIsAtEnd(AfterRun(s, run[..k]), run[k]);
    hide After;
    hide SpanOf;
  }

  /**
   * Across any run of requests: a span that is not empty resolves, at the end of the run, to the bytes
   * it was returned for, and two such spans do not overlap.
   */
  lemma SpansAreStable(s: State, run: seq<Request>, k: nat, l: nat)
    requires k < l < |run| && RunSpan(s, run, k).size > 0 && RunSpan(s, run, l).size > 0
    ensures Resolve(AfterRun(s, run), RunSpan(s, run, k)) == RequestBytes(run[k])
    ensures Resolve(AfterRun(s, run), RunSpan(s, run, l)) == RequestBytes(run[l])
    ensures RunSpan(s, run, k).offset + RunSpan(s, run, k).size <= RunSpan(s, run, l).offset
  {
    hide *;
    SpanAfterRun(s, run, k);
    SpanAfterRun(s, run, l);
    PrefixRuns(s, run[..l], k + 1);
    assert run[..l][..k + 1] == run[..k + 1];
  }

  /** A request for bytes that is refused returns the empty span, sets the flag, and leaves the buffer alone. */
  lemma RefusedChangesNothing(s: State, r: Request)
    requires (r.Append? || r.Allocate?) && !Granted(s, r)
    ensures SpanOf(s, r) == NO_SPAN && After(s, r) == s.(limitExceeded := true)
  {
  }

  /**
   * An allocation is granted only for a power of two, and starts at the least multiple of it that is
   * not below the size of the buffer.
   */
  lemma AllocationIsAligned(s: State, size: U32, alignment: U32, other: nat)
    requires Granted(s, Allocate(size, alignment))
    ensures PowerOfTwo(alignment)
    ensures var start := SpanOf(s, Allocate(size, alignment)).offset;
            && MultipleOf(start, alignment) && |s.buffer| <= start < |s.buffer| + alignment
            && (|s.buffer| <= other && MultipleOf(other, alignment) ==> start <= other)
  {
    AlignUpAccepts(|s.buffer|, alignment);
    AlignUpIsLeast(|s.buffer|, alignment, other);
    hide AlignUp;
    hide MultipleOf;
    hide PowerOfTwo;
  }
}
