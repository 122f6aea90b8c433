/** A byte-addressed memory: which addresses are live, what they hold, and an allocator. */
module ByteMemory {
  import opened Bytes

  /** The live bytes by address. */
  type Cells = map<nat, Byte>

  predicate Within(a: nat, start: nat, n: nat) { start <= a < start + n }

  ghost predicate Live(cells: Cells, start: nat, n: nat) {
    forall a :: start <= a < start + n ==> a in cells
  }

  function BytesAt(cells: Cells, start: nat, n: nat): (r: seq<Byte>)
    requires Live(cells, start, n)
    ensures |r| == n && forall i :: 0 <= i < n ==> r[i] == cells[start + i]
  {
    seq(n, i requires 0 <= i < n => cells[start + i])
  }

  /** The live bytes outside `[start, start + n)` are still live and hold what they held. */
  ghost predicate KeptOutside(before: Cells, after: Cells, start: nat, n: nat) {
    forall a :: a in before && !Within(a, start, n) ==> a in after && after[a] == before[a]
  }

  ghost predicate Apart(start: nat, n: nat, otherStart: nat, otherN: nat) {
    n == 0 || otherN == 0 || start + n <= otherStart || otherStart + otherN <= start
  }

  /** What is apart from the range that changed is still live and holds the same bytes. */
  lemma KeptBytes(before: Cells, after: Cells, changed: nat, changedN: nat, start: nat, n: nat)
    requires KeptOutside(before, after, changed, changedN) && Live(before, start, n)
             && Apart(start, n, changed, changedN)
    ensures Live(after, start, n) && BytesAt(after, start, n) == BytesAt(before, start, n)
  {
  }

  lemma JoinedBytes(cells: Cells, start: nat, m: nat, n: nat)
    requires Live(cells, start, m) && Live(cells, start + m, n)
    ensures Live(cells, start, m + n)
            && BytesAt(cells, start, m + n) == BytesAt(cells, start, m) + BytesAt(cells, start + m, n)
  {
  }

  /** One change after another. */
  lemma KeptTwice(first: Cells, second: Cells, third: Cells, start: nat, n: nat)
    requires KeptOutside(first, second, start, n) && KeptOutside(second, third, start, n)
    ensures KeptOutside(first, third, start, n)
  {
  }

  /** A block can be placed at an address that is not null and where nothing is live. */
  predicate Placeable(cells: Cells, start: nat, n: nat) {
    start > 0 && forall a :: start <= a < start + n ==> a !in cells
  }

  /** There is room behind all live addresses. */
  lemma {:induction false} RoomSomewhere(addresses: set<nat>) returns (end: nat)
    ensures end > 0 && forall a :: a in addresses ==> a < end
  {
    end := 1;
    if addresses != {} {
      var a :| a in addresses;
      var rest := RoomSomewhere(addresses - {a});
      end := if rest > a then rest else a + 1;
      forall b | b in addresses ensures b < end {
        assert b == a || b in addresses - {a};
      }
    }
  }

  class Memory {
    var cells: Cells

    constructor (cells: Cells)
      ensures this.cells == cells
    {
      this.cells := cells;
    }

    /** A new block anywhere in unused memory, holding anything. */
    method Allocate(n: nat) returns (start: nat)
      modifies this
      ensures Placeable(old(cells), start, n) && Live(cells, start, n)
      ensures forall a :: a in cells ==> a in old(cells) || Within(a, start, n)
      ensures KeptOutside(old(cells), cells, 0, 0)
    {
      ghost var end := RoomSomewhere(cells.Keys);
      assert Placeable(cells, end, n);
      var address: nat, content: Byte :| Placeable(cells, address, n);
      start := address;
      cells := cells + map a: nat | start <= a < start + n && Within(a, start, n) :: content;
    }

    /** The block is live no more. */
    method Free(start: nat, n: nat)
      modifies this
      ensures forall a :: a in cells ==> a in old(cells) && !Within(a, start, n)
      ensures KeptOutside(old(cells), cells, start, n)
    {
      cells := cells - set a: nat | start <= a < start + n && Within(a, start, n);
    }

    /** Writes bytes to a live range. */
    method Write(start: nat, bytes: seq<Byte>)
      requires Live(cells, start, |bytes|)
      modifies this
      ensures cells.Keys == old(cells).Keys && Live(cells, start, |bytes|) && BytesAt(cells, start, |bytes|) == bytes
      ensures KeptOutside(old(cells), cells, start, |bytes|)
    {
      cells := cells + map a: nat | start <= a < start + |bytes| && Within(a, start, |bytes|) :: bytes[a - start];
    }

    /** Copies as if all bytes were read before the first one is written. */
    method Move(target: nat, source: nat, n: nat)
      requires Live(cells, source, n) && Live(cells, target, n)
      modifies this
      ensures cells.Keys == old(cells).Keys && Live(cells, target, n)
              && BytesAt(cells, target, n) == old(BytesAt(cells, source, n))
      ensures KeptOutside(old(cells), cells, target, n)
    {
      var bytes := BytesAt(cells, source, n);
      Write(target, bytes);
    }
  }
}
