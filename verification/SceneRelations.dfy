/**
 * References between items, said in terms of item ids: which items belong together, and which
 * references are counted for a component. The table positions used in the computation do not occur.
 */
module SceneRelations {
  import opened Bytes
  import opened ItemData
  import opened SceneTable
  import opened SceneStats
  import UF = UnionFind

  /** The references whose two endpoints are in the table, as pairs of table positions. */
  ghost function IndexEdges(ids: seq<U32>, edges: seq<RefEdge>): seq<UF.Edge> {
    if edges == [] then []
    else
      var e := edges[|edges| - 1];
      var before := IndexEdges(ids, edges[..|edges| - 1]);
      var (a, b) := (IndexOf(ids, e.fromItem), IndexOf(ids, e.toItem));
      if a.Some? && b.Some? then before + [(a.value, b.value)] else before
  }

  // ----- items that belong together -----------------------------------------------------------------

  /** A reference leads from one of the items to the other. */
  ghost predicate Joined(edges: seq<RefEdge>, x: U32, y: U32) {
    exists e :: e in edges && ((e.fromItem == x && e.toItem == y) || (e.fromItem == y && e.toItem == x))
  }

  ghost predicate RelationPath(ids: seq<U32>, edges: seq<RefEdge>, path: seq<U32>, x: U32, y: U32) {
    && path != [] && path[0] == x && path[|path| - 1] == y && (forall k :: 0 <= k < |path| ==> path[k] in ids)
    && forall k :: 0 <= k < |path| - 1 ==> Joined(edges, path[k], path[k + 1])
  }

  /** References between items of the table lead from one item to the other, in any direction. */
  ghost predicate Related(ids: seq<U32>, edges: seq<RefEdge>, x: U32, y: U32) {
    exists path :: RelationPath(ids, edges, path, x, y)
  }

  ghost predicate DistinctIds(ids: seq<U32>) { forall i, j :: 0 <= i < j < |ids| ==> ids[i] != ids[j] }

  lemma IndexOfEntry(ids: seq<U32>, i: nat)
    requires DistinctIds(ids) && i < |ids|
    ensures IndexOf(ids, ids[i]) == Some(i)
  {
  }

  lemma {:induction false} IndexEdgeMeans(ids: seq<U32>, edges: seq<RefEdge>, a: nat, b: nat)
    requires DistinctIds(ids) && a < |ids| && b < |ids|
    ensures (a, b) in IndexEdges(ids, edges) <==> exists e :: e in edges && e.fromItem == ids[a] && e.toItem == ids[b]
  {
    if edges != [] {
      var e, init := edges[|edges| - 1], edges[..|edges| - 1];
      IndexEdgeMeans(ids, init, a, b);
      assert edges == init + [e];
      IndexOfEntry(ids, a);
      IndexOfEntry(ids, b);
    }
  }

  lemma {:induction false} IndexEdgesWithin(ids: seq<U32>, edges: seq<RefEdge>)
    ensures forall e :: e in IndexEdges(ids, edges) ==> e.0 < |ids| && e.1 < |ids|
  {
    if edges != [] {
      IndexEdgesWithin(ids, edges[..|edges| - 1]);
    }
  }

  lemma AdjacentIsJoined(ids: seq<U32>, edges: seq<RefEdge>, a: nat, b: nat)
    requires DistinctIds(ids) && a < |ids| && b < |ids|
    ensures UF.Adjacent(IndexEdges(ids, edges), a, b) <==> Joined(edges, ids[a], ids[b])
  {
    IndexEdgeMeans(ids, edges, a, b);
    IndexEdgeMeans(ids, edges, b, a);
    hide IndexEdges;
  }

  lemma WalkWithin(ids: seq<U32>, edges: seq<RefEdge>, walk: seq<nat>, i: nat, j: nat)
    requires i < |ids| && UF.Walk(IndexEdges(ids, edges), walk, i, j)
    ensures forall k :: 0 <= k < |walk| ==> walk[k] < |ids|
  {
    IndexEdgesWithin(ids, edges);
    forall k | 0 <= k < |walk| ensures walk[k] < |ids| {
      if k > 0 {
        assert UF.Adjacent(IndexEdges(ids, edges), walk[k - 1], walk[k - 1 + 1]);
      }
    }
  }

  /** Connection in the graph of table positions is relation of the items at these positions. */
  lemma ConnectedIsRelated(ids: seq<U32>, edges: seq<RefEdge>, i: nat, j: nat)
    requires DistinctIds(ids) && i < |ids| && j < |ids|
    ensures UF.Connected(IndexEdges(ids, edges), i, j) <==> Related(ids, edges, ids[i], ids[j])
  {
    if UF.Connected(IndexEdges(ids, edges), i, j) {
      var walk :| UF.Walk(IndexEdges(ids, edges), walk, i, j);
      WalkIsPath(ids, edges, walk, i, j);
    }
    if Related(ids, edges, ids[i], ids[j]) {
      var path :| RelationPath(ids, edges, path, ids[i], ids[j]);
      PathIsWalk(ids, edges, path, i, j);
    }
  }

  lemma WalkIsPath(ids: seq<U32>, edges: seq<RefEdge>, walk: seq<nat>, i: nat, j: nat)
    requires DistinctIds(ids) && i < |ids| && j < |ids| && UF.Walk(IndexEdges(ids, edges), walk, i, j)
    ensures Related(ids, edges, ids[i], ids[j])
  {
    hide Joined;
    hide IndexEdges;
    hide UF.Adjacent;
    WalkWithin(ids, edges, walk, i, j);
    var path := seq(|walk|, k requires 0 <= k < |walk| => ids[walk[k]]);
    forall k | 0 <= k < |path| - 1 ensures Joined(edges, path[k], path[k + 1]) {
      assert UF.Adjacent(IndexEdges(ids, edges), walk[k], walk[k + 1]);
      AdjacentIsJoined(ids, edges, walk[k], walk[k + 1]);
    }
    assert RelationPath(ids, edges, path, ids[i], ids[j]);
  }

  lemma PathIsWalk(ids: seq<U32>, edges: seq<RefEdge>, path: seq<U32>, i: nat, j: nat)
    requires DistinctIds(ids) && i < |ids| && j < |ids| && RelationPath(ids, edges, path, ids[i], ids[j])
    ensures UF.Connected(IndexEdges(ids, edges), i, j)
  {
    hide Joined;
    hide IndexEdges;
    hide UF.Adjacent;
    var walk: seq<nat> := seq(|path|, k requires 0 <= k < |path| => IndexOf(ids, path[k]).value);
    IndexOfEntry(ids, i);
    IndexOfEntry(ids, j);
    forall k | 0 <= k < |walk| ensures walk[k] < |ids| && ids[walk[k]] == path[k] {
      assert path[k] in ids;
    }
    forall k | 0 <= k < |walk| - 1 ensures UF.Adjacent(IndexEdges(ids, edges), walk[k], walk[k + 1]) {
      AdjacentIsJoined(ids, edges, walk[k], walk[k + 1]);
    }
    assert UF.Walk(IndexEdges(ids, edges), walk, i, j);
  }

  // ----- references that are counted ------------------------------------------------------------------

  /** The item that the reference leaves is in the component. */
  ghost predicate LeavesFrom(ids: seq<U32>, labels: seq<nat>, e: RefEdge, c: nat)
    requires |ids| == |labels|
  {
    exists i :: 0 <= i < |ids| && ids[i] == e.fromItem && labels[i] == c
  }

  ghost function EdgesFrom(ids: seq<U32>, labels: seq<nat>, edges: seq<RefEdge>, c: nat): set<nat>
    requires |ids| == |labels|
  {
    set k: nat | k < |edges| && LeavesFrom(ids, labels, edges[k], c)
  }

  /** The kind of a reference, by its type, and for auxiliary images by what is known of their use. */
  ghost predicate IsKind(e: RefEdge, aux: map<U32, AuxSemantic>, r: EdgeClass) {
    var code := e.refType;
    match r
    case AuxiliaryRelation => code == FourCC('a', 'u', 'x', 'l')
    case DerivedRelation => code == FourCC('d', 'i', 'm', 'g')
    case ThumbnailRelation => code == FourCC('t', 'h', 'm', 'b')
    case DescriptionRelation => code == FourCC('c', 'd', 's', 'c')
    case OtherRelation =>
      code !in {FourCC('a', 'u', 'x', 'l'), FourCC('d', 'i', 'm', 'g'), FourCC('t', 'h', 'm', 'b'),
                FourCC('c', 'd', 's', 'c')}
    case AuxiliaryUse(use) =>
      code == FourCC('a', 'u', 'x', 'l') && use != AuxUnknown && e.fromItem in aux && aux[e.fromItem] == use
  }

  ghost function KindEdgesFrom(ids: seq<U32>, labels: seq<nat>, edges: seq<RefEdge>, c: nat, aux: map<U32, AuxSemantic>,
                               r: EdgeClass): set<nat>
    requires |ids| == |labels|
  {
    set k: nat | k < |edges| && LeavesFrom(ids, labels, edges[k], c) && IsKind(edges[k], aux, r)
  }

  lemma LabelIsComponent(ids: seq<U32>, labels: seq<nat>, e: RefEdge, c: nat)
    requires |ids| == |labels| && DistinctIds(ids)
    ensures EdgeLabel(ids, labels, e) == Some(c) <==> LeavesFrom(ids, labels, e, c)
  {
    if LeavesFrom(ids, labels, e, c) {
      var i :| 0 <= i < |ids| && ids[i] == e.fromItem && labels[i] == c;
      IndexOfEntry(ids, i);
    }
  }

  lemma CountedEdges(ids: seq<U32>, labels: seq<nat>, edges: seq<RefEdge>, c: nat)
    requires |ids| == |labels| && DistinctIds(ids)
    ensures EdgesOf(ids, labels, edges, c) == EdgesFrom(ids, labels, edges, c)
  {
    hide EdgeLabel;
    hide LeavesFrom;
    forall k | 0 <= k < |edges|
      ensures EdgeLabel(ids, labels, edges[k]) == Some(c) <==> LeavesFrom(ids, labels, edges[k], c)
    {
      LabelIsComponent(ids, labels, edges[k], c);
    }
  }

  lemma ClassIsKind(e: RefEdge, aux: map<U32, AuxSemantic>, r: EdgeClass)
    ensures InClass(e.refType, AuxOf(aux, e.fromItem), r) <==> IsKind(e, aux, r)
  {
  }

  lemma CountedKinds(ids: seq<U32>, labels: seq<nat>, edges: seq<RefEdge>, c: nat, aux: map<U32, AuxSemantic>,
                     r: EdgeClass)
    requires |ids| == |labels| && DistinctIds(ids)
    ensures ClassEdges(ids, labels, edges, c, aux, r) == KindEdgesFrom(ids, labels, edges, c, aux, r)
  {
    hide EdgeLabel;
    hide LeavesFrom;
    hide InClass;
    hide IsKind;
    hide AuxOf;
    forall k | 0 <= k < |edges|
      ensures EdgeLabel(ids, labels, edges[k]) == Some(c) <==> LeavesFrom(ids, labels, edges[k], c)
      ensures InClass(edges[k].refType, AuxOf(aux, edges[k].fromItem), r) <==> IsKind(edges[k], aux, r)
    {
      LabelIsComponent(ids, labels, edges[k], c);
      ClassIsKind(edges[k], aux, r);
    }
  }
}
