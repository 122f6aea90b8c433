/**
 * Items over items over items, and where the limits of the resolver lie: a tower of 16 items can be
 * opened and one of 17 cannot; a reference tree of 4096 items can, and one of 4097 cannot.
 */
module ItemTowers {
  import opened Bytes
  import opened ItemData
  import opened ItemResolver
  import opened ItemCursor
  import opened ItemStarvation

  /** Item 1 is the first byte of the file; item `i + 2` takes the byte of item `i + 1`, `widths[i]` times. */
  function TowerTable(widths: seq<U32>): (r: seq<Location>)
    requires |widths| < 100
    ensures |r| == |widths| + 1 && r[0] == LEAF
    ensures forall i :: 0 <= i < |widths| ==> r[i + 1] == Repeater(i + 2, widths[i])
  {
    [LEAF] + seq(|widths|, i requires 0 <= i < |widths| => Repeater(i + 2, widths[i]))
  }

  function TowerReferences(widths: seq<U32>): (r: seq<RefEdge>)
    requires |widths| < 100
    ensures |r| == |widths|
    ensures forall i :: 0 <= i < |r| ==> r[i] == RefEdge(FourCC('i', 'l', 'o', 'c'), i + 2, i + 1)
  {
    seq(|widths|, i requires 0 <= i < |widths| => RefEdge(FourCC('i', 'l', 'o', 'c'), i + 2, i + 1))
  }

  /** The tower, seen from the item that stands `level` levels above item 1. */
  function Tower(widths: seq<U32>, level: nat): Env
    requires level <= |widths| < 100
  {
    Env([42], Props(TowerReferences(widths), false, TowerTable(widths), 4, false, 0, 0), level + 1, 0)
  }

  /** The size of the reference tree of the item at a level. */
  function TreeSize(widths: seq<U32>, level: nat): nat
    requires level <= |widths|
  {
    if level == 0 then 1 else 1 + widths[level - 1] * TreeSize(widths, level - 1)
  }

  lemma TowerLocation(widths: seq<U32>, top: nat, level: nat)
    requires level <= top <= |widths| < 100 && forall i :: 0 <= i < |widths| ==> widths[i] > 0
    ensures UsableLocation(Tower(widths, top), level + 1)
            == Some(if level == 0 then LEAF else Repeater(level + 1, widths[level - 1]))
  {
    LookupAt(TowerTable(widths), level);
  }

  lemma TowerTarget(widths: seq<U32>, top: nat, level: nat, i: nat)
    requires 0 < level <= top <= |widths| < 100 && i < widths[level - 1]
    ensures ExtentTarget(Tower(widths, top).props, Repeater(level + 1, widths[level - 1]), i) == Some(level)
  {
    OnlyTarget(TowerReferences(widths), level - 1);
    assert Repeater(level + 1, widths[level - 1]).extents[i] == Extent(1, 0, 1);
  }

  /** The first `n` extents of the item at a level, one byte each. */
  lemma {:induction false} TowerRun(widths: seq<U32>, top: nat, level: nat, n: nat, fuel: nat)
    requires 0 < level <= top <= |widths| < 100 && n <= widths[level - 1] && fuel > 0
    requires Flatten(Tower(widths, top), level, fuel - 1).Some?
    requires Flatten(Tower(widths, top), level, fuel - 1).value != []
    ensures var env, loc := Tower(widths, top), Repeater(level + 1, widths[level - 1]);
            && FlattenExtents(env, loc, n, fuel).Some? && |FlattenExtents(env, loc, n, fuel).value| == n
            && ExtentsCost(env, loc, n, fuel) == n * Cost(env, level, fuel - 1)
  {
    if n > 0 {
      var env, loc := Tower(widths, top), Repeater(level + 1, widths[level - 1]);
      TowerRun(widths, top, level, n - 1, fuel);
      TowerTarget(widths, top, level, n - 1);
      hide Tower;
      hide ExtentTarget;
      assert loc.extents[n - 1] == Extent(1, 0, 1);
      assert SourceBytes(env, loc, n - 1, fuel) == Flatten(env, level, fuel - 1);
      assert |ExtentBytes(env, loc, n - 1, fuel).value| == 1;
    }
  }

  lemma TowerFoot(widths: seq<U32>, top: nat, fuel: nat)
    requires top <= |widths| < 100 && fuel > 0 && forall i :: 0 <= i < |widths| ==> widths[i] > 0
    ensures var env := Tower(widths, top); Flatten(env, 1, fuel) == Some([42]) && Cost(env, 1, fuel) == 1
  {
    var env := Tower(widths, top);
    TowerLocation(widths, top, 0);
    assert LEAF.extents[0] == Extent(0, 0, 1) && SourceBytes(env, LEAF, 0, fuel) == Some([42]);
    assert [42 as Byte][0..1] == [42];
    assert ExtentBytes(env, LEAF, 0, fuel) == Some([42]) && FlattenExtents(env, LEAF, 0, fuel) == Some([]);
    assert [] + [42 as Byte] == [42];
    assert FlattenExtents(env, LEAF, 1, fuel) == Some([42]);
    PlainExtentsCost(env, LEAF, 1, fuel);
  }

  /** With one level of fuel for every level of the tower an item has bytes, and it costs its whole tree. */
  lemma {:induction false} TowerStands(widths: seq<U32>, top: nat, level: nat, fuel: nat)
    requires level <= top <= |widths| < 100 && forall i :: 0 <= i < |widths| ==> widths[i] > 0
    requires fuel > level
    ensures var env := Tower(widths, top);
            && Flatten(env, level + 1, fuel).Some? && Flatten(env, level + 1, fuel).value != []
            && Cost(env, level + 1, fuel) == TreeSize(widths, level)
  {
    hide Flatten;
    hide Cost;
    hide Tower;
    if level == 0 {
      TowerFoot(widths, top, fuel);
    } else {
      TowerStands(widths, top, level - 1, fuel - 1);
      TowerStep(widths, top, level, fuel);
    }
  }

  lemma TowerStep(widths: seq<U32>, top: nat, level: nat, fuel: nat)
    requires 0 < level <= top <= |widths| < 100 && forall i :: 0 <= i < |widths| ==> widths[i] > 0
    requires fuel > level && Flatten(Tower(widths, top), level, fuel - 1).Some?
    requires Flatten(Tower(widths, top), level, fuel - 1).value != []
    ensures var env := Tower(widths, top);
            && Flatten(env, level + 1, fuel).Some? && Flatten(env, level + 1, fuel).value != []
            && Cost(env, level + 1, fuel) == 1 + widths[level - 1] * Cost(env, level, fuel - 1)
  {
    var n := widths[level - 1];
    TowerLocation(widths, top, level);
    RepeaterLength(level + 1, n);
    TowerRun(widths, top, level, n, fuel);
    hide Tower;
    hide UsableLocation;
    hide Repeater;
    hide FlattenExtents;
    hide ExtentsCost;
  }

  lemma RepeaterLength(id: U32, n: U32)
    ensures |Repeater(id, n).extents| == n
  {
  }

  /** With less it has none. */
  lemma {:induction false} TowerFalls(widths: seq<U32>, top: nat, level: nat, fuel: nat)
    requires level <= top <= |widths| < 100 && forall i :: 0 <= i < |widths| ==> widths[i] > 0
    requires fuel <= level
    ensures Flatten(Tower(widths, top), level + 1, fuel) == None
    decreases fuel
  {
    if fuel > 0 {
      var env, loc := Tower(widths, top), Repeater(level + 1, widths[level - 1]);
      TowerLocation(widths, top, level);
      TowerFalls(widths, top, level - 1, fuel - 1);
      TowerTarget(widths, top, level, 0);
      hide Tower;
      hide ExtentTarget;
      hide UsableLocation;
      assert |loc.extents| == widths[level - 1] > 0;
      assert SourceBytes(env, loc, 0, fuel) == Flatten(env, level, fuel - 1);
      NoFirstNoItem(env, loc, fuel);
      hide FlattenExtents;
    }
  }

  lemma NoFirstNoItem(env: Env, loc: Location, fuel: nat)
    requires 0 < |loc.extents| <= U32_MAX && fuel > 0 && SourceBytes(env, loc, 0, fuel).None?
    ensures FlattenExtents(env, loc, |loc.extents|, fuel).None?
  {
    if FlattenExtents(env, loc, |loc.extents|, fuel).Some? {
      PrefixFlattens(env, loc, 0, |loc.extents|, fuel);
    }
  }

  /** A tree of 4096 items is within the budget; the item over it is not, though it has bytes. */
  lemma BudgetEdge()
    ensures var widths := [16, 16, 15, 1];
            && Openable(Tower(widths, 3)) && TreeSize(widths, 3) == 4096
            && ItemBytes(Tower(widths, 4)).Some? && !Openable(Tower(widths, 4)) && TreeSize(widths, 4) == 4097
  {
    var widths: seq<U32> := [16, 16, 15, 1];
    SizesOfEdge(widths);
    hide TreeSize;
    hide Tower;
    TowerStands(widths, 3, 3, MAX_RESOLVE_PATH);
    TowerStands(widths, 4, 4, MAX_RESOLVE_PATH);
    hide Flatten;
    hide Cost;
    RootOfTower(widths, 3);
    RootOfTower(widths, 4);
  }

  lemma RootOfTower(widths: seq<U32>, level: nat)
    requires level <= |widths| < 100
    ensures Tower(widths, level).root == level + 1
  {
  }

  lemma SizesOfEdge(widths: seq<U32>)
    requires widths == [16, 16, 15, 1]
    ensures TreeSize(widths, 3) == 4096 && TreeSize(widths, 4) == 4097
  {
    assert TreeSize(widths, 0) == 1;
    assert TreeSize(widths, 1) == 17;
    assert TreeSize(widths, 2) == 273;
  }

  function Ones(n: nat): (r: seq<U32>)
    ensures |r| == n && forall i :: 0 <= i < n ==> r[i] == 1
  {
    seq(n, _ => 1)
  }

  lemma {:induction false} ThinTree(n: nat, level: nat)
    requires level <= n
    ensures TreeSize(Ones(n), level) == level + 1
  {
    if level > 0 {
      ThinTree(n, level - 1);
    }
  }

  /** Of a tower of 17 items the 16th can be opened, and the 17th cannot, though nothing in it is wrong. */
  lemma DepthEdge()
    ensures Openable(Tower(Ones(16), 15)) && !Openable(Tower(Ones(16), 16))
    ensures Flatten(Tower(Ones(16), 16), 17, 17).Some?
  {
    ThinTree(16, 15);
    TowerStands(Ones(16), 15, 15, MAX_RESOLVE_PATH);
    TowerFalls(Ones(16), 16, 16, MAX_RESOLVE_PATH);
    TowerStands(Ones(16), 16, 16, 17);
    hide Flatten;
    hide Cost;
    hide TreeSize;
  }
}
