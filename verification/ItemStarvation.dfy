/**
 * A cursor can be opened on an item some of whose bytes it cannot read: the size query visits the
 * reference tree once, a read visits parts of it once per level.
 */
module ItemStarvation {
  import opened Bytes
  import opened ItemData
  import opened ItemResolver
  import opened ItemReader
  import opened ItemCursor

  /** Item `id` takes the first byte of the one item it refers to, `n` times. */
  function Repeater(id: U32, n: U32): Location {
    Location(id, 2, 0, 0, n, seq(n, _ => Extent(1, 0, 1)), n, false, false)
  }

  const LEAF := Location(1, 0, 0, 0, 1, [Extent(0, 0, 1)], 1, false, false)

  const TABLE: seq<Location> := [LEAF, Repeater(2, 16), Repeater(3, 16), Repeater(4, 7), Repeater(5, 2)]

  const REFERENCES: seq<RefEdge> := [
    RefEdge(Iloc(), 2, 1), RefEdge(Iloc(), 3, 2), RefEdge(Iloc(), 4, 3), RefEdge(Iloc(), 5, 4)]

  const STARVED := Env([42], Props(REFERENCES, false, TABLE, 4, false, 0, 0), 5, 0)

  lemma {:induction false} LookupAt(locations: seq<Location>, i: nat)
    requires i < |locations| && forall j :: 0 <= j < i ==> locations[j].itemId != locations[i].itemId
    ensures LookupLocation(locations, locations[i].itemId) == Some(locations[i])
  {
    if i > 0 {
      LookupAt(locations[1..], i - 1);
    }
  }

  lemma Locations()
    ensures UsableLocation(STARVED, 1) == Some(LEAF)
    ensures UsableLocation(STARVED, 2) == Some(Repeater(2, 16))
    ensures UsableLocation(STARVED, 3) == Some(Repeater(3, 16))
    ensures UsableLocation(STARVED, 4) == Some(Repeater(4, 7))
    ensures UsableLocation(STARVED, 5) == Some(Repeater(5, 2))
  {
    LookupAt(TABLE, 0);
    LookupAt(TABLE, 1);
    LookupAt(TABLE, 2);
    LookupAt(TABLE, 3);
    LookupAt(TABLE, 4);
  }

  lemma {:induction false} TargetsOf(edges: seq<RefEdge>, id: U32)
    requires forall e :: e in edges ==> e.refType == Iloc() && e.fromItem != id
    ensures IlocTargets(edges, id) == []
  {
    if edges != [] {
      TargetsOf(edges[..|edges| - 1], id);
    }
  }

  lemma {:induction false} OnlyTarget(edges: seq<RefEdge>, i: nat)
    requires i < |edges| && forall e :: e in edges ==> e.refType == Iloc()
    requires forall j :: 0 <= j < |edges| && j != i ==> edges[j].fromItem != edges[i].fromItem
    ensures IlocTargets(edges, edges[i].fromItem) == [edges[i].toItem]
  {
    if i == |edges| - 1 {
      TargetsOf(edges[..i], edges[i].fromItem);
    } else {
      OnlyTarget(edges[..|edges| - 1], i);
    }
  }

  lemma Targets(id: U32)
    requires 2 <= id <= 5
    ensures ReferenceTarget(STARVED.props, id, 1) == Some(id - 1)
  {
    OnlyTarget(REFERENCES, id - 2);
  }

  /** The first `n` extents of a repeater cost `n` times what its target costs. */
  lemma {:induction false} RepeaterRun(id: U32, total: U32, n: nat, fuel: nat)
    requires 2 <= id <= 5 && n <= total && fuel > 0
    requires Flatten(STARVED, id - 1, fuel - 1).Some? && Flatten(STARVED, id - 1, fuel - 1).value != []
    ensures var f := FlattenExtents(STARVED, Repeater(id, total), n, fuel);
            f.Some? && |f.value| == n
    ensures ExtentsCost(STARVED, Repeater(id, total), n, fuel) == n * Cost(STARVED, id - 1, fuel - 1)
  {
    if n > 0 {
      var loc := Repeater(id, total);
      RepeaterRun(id, total, n - 1, fuel);
      Targets(id);
      assert loc.extents[n - 1] == Extent(1, 0, 1);
      assert ExtentTarget(STARVED.props, loc, n - 1) == Some(id - 1);
      assert SourceBytes(STARVED, loc, n - 1, fuel) == Flatten(STARVED, id - 1, fuel - 1);
      assert |ExtentBytes(STARVED, loc, n - 1, fuel).value| == 1;
    }
  }

  /** Byte `k` of a repeater is fetched through its extent `k`. */
  lemma RepeaterRead(id: U32, total: U32, k: nat, fuel: nat)
    requires 2 <= id <= 5 && k < total && fuel > 0 && UsableLocation(STARVED, id) == Some(Repeater(id, total))
    requires Flatten(STARVED, id - 1, fuel - 1).Some? && Flatten(STARVED, id - 1, fuel - 1).value != []
    ensures Flatten(STARVED, id, fuel).Some? && |Flatten(STARVED, id, fuel).value| == total
    ensures Cost(STARVED, id, fuel) == 1 + total * Cost(STARVED, id - 1, fuel - 1)
    ensures ReadCost(STARVED, id, k, fuel)
            == 1 + (k + 1) * Cost(STARVED, id - 1, fuel - 1) + ReadCost(STARVED, id - 1, 0, fuel - 1)
  {
    var loc := Repeater(id, total);
    RepeaterRun(id, total, total, fuel);
    RepeaterRun(id, total, k, fuel);
    RepeaterRun(id, total, k + 1, fuel);
    ReadCostAt(STARVED, loc, total, k, k, fuel);
    PartByte(STARVED, loc, k, 0, fuel);
    Targets(id);
    assert ExtentTarget(STARVED.props, loc, k) == Some(id - 1);
  }

  lemma LeafBytes(fuel: nat)
    requires fuel > 0
    ensures Flatten(STARVED, 1, fuel) == Some([42]) && Cost(STARVED, 1, fuel) == 1
  {
    Locations();
    assert LEAF.extents[0] == Extent(0, 0, 1);
    assert SourceBytes(STARVED, LEAF, 0, fuel) == Some([42]);
    assert [42 as Byte][0..1] == [42];
    assert ExtentBytes(STARVED, LEAF, 0, fuel) == Some([42]);
    assert FlattenExtents(STARVED, LEAF, 0, fuel) == Some([]);
    assert [] + [42 as Byte] == [42];
    assert FlattenExtents(STARVED, LEAF, 1, fuel) == Some([42]);
    PlainExtentsCost(STARVED, LEAF, 1, fuel);
  }

  lemma LeafRead(fuel: nat)
    requires fuel > 0
    ensures Flatten(STARVED, 1, fuel) == Some([42]) && ReadCost(STARVED, 1, 0, fuel) == 1
  {
    LeafBytes(fuel);
    Locations();
    PlainExtentsCost(STARVED, LEAF, 1, fuel);
    PrefixFlattens(STARVED, LEAF, 0, 1, fuel);
    ReadCostAt(STARVED, LEAF, 1, 0, 0, fuel);
  }

  /** The costs of the chain of repeaters, bottom up. */
  lemma ChainCosts(fuel: nat)
    requires fuel >= 4
    ensures Flatten(STARVED, 4, fuel).Some? && |Flatten(STARVED, 4, fuel).value| == 7
    ensures Cost(STARVED, 4, fuel) == 1912 && ReadCost(STARVED, 4, 0, fuel) == 295
  {
    Locations();
    LeafBytes(fuel - 3);
    LeafRead(fuel - 3);
    RepeaterRead(2, 16, 0, fuel - 2);
    RepeaterRead(3, 16, 0, fuel - 1);
    RepeaterRead(4, 7, 0, fuel);
  }

  lemma RootCosts(fuel: nat)
    requires fuel >= 5
    ensures Flatten(STARVED, 5, fuel).Some? && |Flatten(STARVED, 5, fuel).value| == 2
    ensures Cost(STARVED, 5, fuel) == 3825
    ensures ReadCost(STARVED, 5, 0, fuel) == 2208 && ReadCost(STARVED, 5, 1, fuel) == 4120
  {
    Locations();
    ChainCosts(fuel - 1);
    RepeaterRead(5, 2, 0, fuel);
    RepeaterRead(5, 2, 1, fuel);
  }

  /** The property "every byte below the reported size can be read" is false of the code. */
  lemma OpenableButNotReadable()
    ensures ValidEnv(STARVED) && Openable(STARVED)
    ensures |ItemBytes(STARVED).value| == 2
    ensures Readable(STARVED, 0) && !Readable(STARVED, 1)
  {
    RootCosts(MAX_RESOLVE_PATH);
  }
}
