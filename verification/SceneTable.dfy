/**
 * The node table of the BMFF scene graph: item ids in order of first appearance, each with the best
 * known semantic, up to a fixed capacity.
 */
module SceneTable {
  import opened Bytes
  import opened ItemData

  const SCENE_CAPACITY := 512

  datatype ItemSemantic =
    | Unknown | Image | Exif | Xmp | Jumbf | C2pa | IccProfile | Auxiliary
    | DerivedImage | Thumbnail | ContentDescription | Uri | Json

  predicate IsKnown(s: ItemSemantic) { s != Unknown }

  predicate IsMetadata(s: ItemSemantic) {
    s.Exif? || s.Xmp? || s.Jumbf? || s.C2pa? || s.IccProfile? || s.ContentDescription? || s.Uri? || s.Json?
  }

  predicate IsSceneImage(s: ItemSemantic) { s.Image? || s.Auxiliary? || s.DerivedImage? || s.Thumbnail? }

  predicate IsContentBound(s: ItemSemantic) { s == Jumbf || s == C2pa }

  function Auxl(): U32 { FourCC('a', 'u', 'x', 'l') }

  function Dimg(): U32 { FourCC('d', 'i', 'm', 'g') }

  function Thmb(): U32 { FourCC('t', 'h', 'm', 'b') }

  function Cdsc(): U32 { FourCC('c', 'd', 's', 'c') }

  /** What an item is when all that is known of it is that a reference of this type leaves it. */
  function RelationSourceSemantic(refType: U32): ItemSemantic {
    if refType == Auxl() then Auxiliary
    else if refType == Dimg() then DerivedImage
    else if refType == Thmb() then Thumbnail
    else if refType == Cdsc() then ContentDescription
    else Unknown
  }

  datatype Node = Node(id: U32, semantic: ItemSemantic)

  /** The position of `id`, which the table holds at most once. */
  function IndexOf(ids: seq<U32>, id: U32): (r: Option<nat>)
    ensures r.Some? ==> r.value < |ids| && ids[r.value] == id && id !in ids[..r.value]
    ensures r.None? ==> id !in ids
  {
    if ids == [] then None
    else if ids[0] == id then Some(0)
    else match IndexOf(ids[1..], id)
      case None => None
      case Some(k) => assert ids[..k + 1] == [ids[0]] + ids[1..][..k]; Some(k + 1)
  }

  method FindSceneNodeIndex(ids: array<U32>, count: nat, id: U32) returns (r: Option<nat>)
    requires count <= ids.Length
    ensures r == IndexOf(ids[..count], id)
  {
    var i := 0;
    while i < count
      invariant 0 <= i <= count && id !in ids[..i]
    {
      if ids[i] == id {
        assert ids[..count][..i] == ids[..i];
        return Some(i);
      }
      i := i + 1;
    }
    r := None;
  }

  function Ids(nodes: seq<Node>): (ids: seq<U32>)
    ensures |ids| == |nodes| && forall i :: 0 <= i < |nodes| ==> ids[i] == nodes[i].id
  {
    seq(|nodes|, i requires 0 <= i < |nodes| => nodes[i].id)
  }

  /** The table after one more sighting of `id`. */
  function Push(nodes: seq<Node>, capacity: nat, id: U32, semantic: ItemSemantic): seq<Node> {
    if id == 0 then nodes
    else match IndexOf(Ids(nodes), id)
      case Some(k) =>
        if !IsKnown(nodes[k].semantic) && IsKnown(semantic) then nodes[k := Node(id, semantic)] else nodes
      case None =>
        if |nodes| < capacity then nodes + [Node(id, semantic)] else nodes
  }

  ghost predicate Distinct(nodes: seq<Node>) {
    && (forall i :: 0 <= i < |nodes| ==> nodes[i].id != 0)
    && (forall i, j :: 0 <= i < j < |nodes| ==> nodes[i].id != nodes[j].id)
  }

  lemma PushProperties(nodes: seq<Node>, capacity: nat, id: U32, semantic: ItemSemantic)
    requires Distinct(nodes) && |nodes| <= capacity
    ensures var after := Push(nodes, capacity, id, semantic);
            && Distinct(after) && |after| <= capacity
            && Ids(nodes) <= Ids(after)
            && (id != 0 ==> id in Ids(after) || |after| == capacity)
            && (forall x :: x in Ids(after) ==> x in Ids(nodes) || x == id)
  {
    var k := IndexOf(Ids(nodes), id);
    if id != 0 && k.None? && |nodes| < capacity {
      var after := nodes + [Node(id, semantic)];
      forall i | 0 <= i < |nodes| ensures nodes[i].id != id {
        assert Ids(nodes)[i] != id;
      }
      assert Ids(after) == Ids(nodes) + [id];
    } else if id != 0 && k.Some? {
      assert id == Ids(nodes)[k.value];
      assert Ids(nodes[k.value := Node(id, semantic)]) == Ids(nodes);
    }
  }

  /** The items to enter before the references are looked at: the primary item, then the listed ones. */
  function PushInfos(nodes: seq<Node>, infos: seq<Node>): seq<Node> {
    if infos == [] then nodes
    else Push(PushInfos(nodes, infos[..|infos| - 1]), SCENE_CAPACITY, infos[|infos| - 1].id,
              infos[|infos| - 1].semantic)
  }

  function PushEdges(nodes: seq<Node>, edges: seq<RefEdge>): seq<Node> {
    if edges == [] then nodes
    else
      var e := edges[|edges| - 1];
      var before := PushEdges(nodes, edges[..|edges| - 1]);
      var withSource := Push(before, SCENE_CAPACITY, e.fromItem, RelationSourceSemantic(e.refType));
      Push(withSource, SCENE_CAPACITY, e.toItem, Unknown)
  }

  /** The whole table. */
  function SceneNodes(primary: Option<U32>, infos: seq<Node>, edges: seq<RefEdge>): seq<Node> {
    var start := match primary case None => [] case Some(id) => Push([], SCENE_CAPACITY, id, Unknown);
    PushEdges(PushInfos(start, infos), edges)
  }

  lemma {:induction false} PushInfosProperties(nodes: seq<Node>, infos: seq<Node>)
    requires Distinct(nodes) && |nodes| <= SCENE_CAPACITY
    ensures var after := PushInfos(nodes, infos);
            && Distinct(after) && |after| <= SCENE_CAPACITY && Ids(nodes) <= Ids(after)
            && (|after| < SCENE_CAPACITY ==> forall n :: n in infos && n.id != 0 ==> n.id in Ids(after))
  {
    if infos != [] {
      var last := infos[|infos| - 1];
      PushInfosProperties(nodes, infos[..|infos| - 1]);
      PushProperties(PushInfos(nodes, infos[..|infos| - 1]), SCENE_CAPACITY, last.id, last.semantic);
    }
  }

  /** Every endpoint of every reference is in the table, unless the table is full. */
  lemma {:induction false} PushEdgesProperties(nodes: seq<Node>, edges: seq<RefEdge>)
    requires Distinct(nodes) && |nodes| <= SCENE_CAPACITY
    ensures var after := PushEdges(nodes, edges);
            && Distinct(after) && |after| <= SCENE_CAPACITY && Ids(nodes) <= Ids(after)
            && (|after| < SCENE_CAPACITY ==> forall e :: e in edges ==>
                  (e.fromItem != 0 ==> e.fromItem in Ids(after)) && (e.toItem != 0 ==> e.toItem in Ids(after)))
  {
    hide Push;
    hide Distinct;
    if edges != [] {
      var e := edges[|edges| - 1];
      var before := PushEdges(nodes, edges[..|edges| - 1]);
      PushEdgesProperties(nodes, edges[..|edges| - 1]);
      PushProperties(before, SCENE_CAPACITY, e.fromItem, RelationSourceSemantic(e.refType));
      PushProperties(Push(before, SCENE_CAPACITY, e.fromItem, RelationSourceSemantic(e.refType)), SCENE_CAPACITY,
                     e.toItem, Unknown);
    }
  }

  /** Ids are distinct and nonzero, a nonzero primary item comes first, nothing is lost below capacity. */
  lemma SceneNodesProperties(primary: Option<U32>, infos: seq<Node>, edges: seq<RefEdge>)
    ensures var nodes := SceneNodes(primary, infos, edges);
            && Distinct(nodes) && |nodes| <= SCENE_CAPACITY
            && (primary.Some? && primary.value != 0 ==> nodes != [] && nodes[0].id == primary.value)
            && (|nodes| < SCENE_CAPACITY ==>
                  (forall n :: n in infos && n.id != 0 ==> n.id in Ids(nodes))
                  && forall e :: e in edges ==>
                       (e.fromItem != 0 ==> e.fromItem in Ids(nodes)) && (e.toItem != 0 ==> e.toItem in Ids(nodes)))
  {
    var start: seq<Node> := match primary case None => [] case Some(id) => Push([], SCENE_CAPACITY, id, Unknown);
    var listed := PushInfos(start, infos);
    PushInfosProperties(start, infos);
    PushEdgesProperties(listed, edges);
    var nodes := SceneNodes(primary, infos, edges);
    assert Ids(start) <= Ids(nodes);
    if primary.Some? && primary.value != 0 {
      assert Ids(nodes)[0] == Ids(start)[0];
    }
  }

  // ----- the table in its arrays ----------------------------------------------------------------

  class Table {
    const ids: array<U32>
    const semantics: array<ItemSemantic>
    const parent: array<nat>
    var count: nat

    ghost predicate Valid()
      reads this, ids, semantics, parent
    {
      && ids.Length == semantics.Length == parent.Length == SCENE_CAPACITY
      && count <= SCENE_CAPACITY
      && forall i :: 0 <= i < count ==> parent[i] == i
    }

    function Nodes(): (nodes: seq<Node>)
      requires count <= ids.Length && count <= semantics.Length
      reads this, ids, semantics
      ensures |nodes| == count
    {
      seq(count, i requires 0 <= i < count reads this, ids, semantics
          requires count <= ids.Length && count <= semantics.Length
                 => Node(ids[i], semantics[i]))
    }

    constructor ()
      ensures Valid() && fresh(ids) && fresh(semantics) && fresh(parent)
      ensures Nodes() == []
    {
      ids := new U32[SCENE_CAPACITY](_ => 0);
      semantics := new ItemSemantic[SCENE_CAPACITY](_ => Unknown);
      parent := new nat[SCENE_CAPACITY](_ => 0);
      count := 0;
    }

    method PushSceneNode(id: U32, semantic: ItemSemantic)
      requires Valid()
      modifies this, ids, semantics, parent
      ensures Valid() && Nodes() == Push(old(Nodes()), SCENE_CAPACITY, id, semantic)
    {
      if id == 0 {
        return;
      }
      var found := FindSceneNodeIndex(ids, count, id);
      assert ids[..count] == Ids(Nodes());
      if found.Some? {
        if !IsKnown(semantics[found.value]) && IsKnown(semantic) {
          semantics[found.value] := semantic;
          assert Nodes() == old(Nodes())[found.value := Node(id, semantic)];
        }
        return;
      }
      if count < SCENE_CAPACITY {
        ids[count], semantics[count], parent[count] := id, semantic, count;
        count := count + 1;
        assert Nodes() == old(Nodes()) + [Node(id, semantic)];
      }
    }

    method PushAll(primary: Option<U32>, infos: seq<Node>, edges: seq<RefEdge>)
      requires Valid() && Nodes() == []
      modifies this, ids, semantics, parent
      ensures Valid() && Nodes() == SceneNodes(primary, infos, edges)
    {
      if primary.Some? {
        PushSceneNode(primary.value, Unknown);
      }
      ghost var start := Nodes();
      var i := 0;
      while i < |infos|
        invariant 0 <= i <= |infos| && Valid() && Nodes() == PushInfos(start, infos[..i])
      {
        assert infos[..i + 1][..i] == infos[..i];
        PushSceneNode(infos[i].id, infos[i].semantic);
        i := i + 1;
      }
      assert infos[..i] == infos;
      ghost var listed := Nodes();
      i := 0;
      while i < |edges|
        invariant 0 <= i <= |edges| && Valid() && Nodes() == PushEdges(listed, edges[..i])
      {
        assert edges[..i + 1][..i] == edges[..i];
        PushSceneNode(edges[i].fromItem, RelationSourceSemantic(edges[i].refType));
        PushSceneNode(edges[i].toItem, Unknown);
        i := i + 1;
      }
      assert edges[..i] == edges;
    }
  }
}
