/**
 * What the node table of a scene says, without building it: the ids in the order in which they are
 * first met, and of every id the first semantic that is known of it.
 */
module SceneSightings {
  import opened Bytes
  import opened ItemData
  import opened SceneTable

  /** What a reference says about the item it leaves, by its type. */
  const SOURCES: map<U32, ItemSemantic> := map[
    FourCC('a', 'u', 'x', 'l') := Auxiliary, FourCC('d', 'i', 'm', 'g') := DerivedImage,
    FourCC('t', 'h', 'm', 'b') := Thumbnail, FourCC('c', 'd', 's', 'c') := ContentDescription]

  /** A reference is met at both of its ends, and tells something about its source only. */
  function EdgeSightings(e: RefEdge): seq<Node> {
    [Node(e.fromItem, if e.refType in SOURCES then SOURCES[e.refType] else Unknown), Node(e.toItem, Unknown)]
  }

  function AllEdgeSightings(edges: seq<RefEdge>): seq<Node> {
    if edges == [] then [] else AllEdgeSightings(edges[..|edges| - 1]) + EdgeSightings(edges[|edges| - 1])
  }

  /** All places where an item is met: as the primary item, in the list of items, and in the references. */
  function Sightings(primary: Option<U32>, infos: seq<Node>, edges: seq<RefEdge>): seq<Node> {
    (match primary case None => [] case Some(id) => [Node(id, Unknown)]) + infos + AllEdgeSightings(edges)
  }

  // ----- what the table must say ------------------------------------------------------------------

  /** The first sighting of `id`. */
  ghost predicate FirstAt(seen: seq<Node>, k: nat, id: U32) {
    k < |seen| && seen[k].id == id && forall j :: 0 <= j < k ==> seen[j].id != id
  }

  /** The semantic is the first known one among the sightings of `id`, or unknown if there is none. */
  ghost predicate FirstKnown(seen: seq<Node>, id: U32, semantic: ItemSemantic) {
    if semantic == Unknown then forall j :: 0 <= j < |seen| && seen[j].id == id ==> seen[j].semantic == Unknown
    else exists k ::
           && 0 <= k < |seen| && seen[k] == Node(id, semantic)
           && forall j :: 0 <= j < k && seen[j].id == id ==> seen[j].semantic == Unknown
  }

  /**
   * The nodes are first met at the ascending places `first`. Whatever is met and is not in the table has
   * the number 0, or was met when the table was full already.
   */
  ghost predicate FirstSeen(nodes: seq<Node>, seen: seq<Node>, first: seq<nat>) {
    && |first| == |nodes| <= 512
    && (forall i, j :: 0 <= i < j < |first| ==> first[i] < first[j])
    && (forall i :: 0 <= i < |nodes| ==> nodes[i].id != 0 && FirstAt(seen, first[i], nodes[i].id))
    && (forall i :: 0 <= i < |nodes| ==> FirstKnown(seen, nodes[i].id, nodes[i].semantic))
    && (forall k :: 0 <= k < |seen| && seen[k].id != 0 && seen[k].id !in Ids(nodes) ==>
          |nodes| == 512 && first[511] < k)
  }

  /** The table of a list of sightings. */
  ghost predicate TableOf(nodes: seq<Node>, seen: seq<Node>) {
    exists first :: FirstSeen(nodes, seen, first)
  }

  // ----- the table says it --------------------------------------------------------------------------

  lemma FirstAtMore(seen: seq<Node>, n: Node, k: nat, id: U32)
    ensures FirstAt(seen + [n], k, id) <==>
              FirstAt(seen, k, id)
              || (k == |seen| && n.id == id && forall j :: 0 <= j < |seen| ==> seen[j].id != id)
  {
    assert forall j :: 0 <= j < |seen| ==> (seen + [n])[j] == seen[j];
  }

  lemma FirstKnownMore(seen: seq<Node>, n: Node, id: U32, semantic: ItemSemantic)
    requires FirstKnown(seen, id, semantic)
    ensures FirstKnown(seen + [n], id, if n.id == id && semantic == Unknown then n.semantic else semantic)
  {
    var more := seen + [n];
    if semantic != Unknown {
      var k :| 0 <= k < |seen| && seen[k] == Node(id, semantic)
               && forall j :: 0 <= j < k && seen[j].id == id ==> seen[j].semantic == Unknown;
      assert more[k] == Node(id, semantic);
    } else if n.id == id && n.semantic != Unknown {
      assert more[|seen|] == Node(id, n.semantic);
    }
  }

  lemma FirstKnownNew(seen: seq<Node>, n: Node)
    requires forall j :: 0 <= j < |seen| ==> seen[j].id != n.id
    ensures FirstKnown(seen + [n], n.id, n.semantic)
  {
    assert (seen + [n])[|seen|] == n;
  }

  /** A sighting of no item, or of one that is in the table. */
  lemma KnownSighting(nodes: seq<Node>, seen: seq<Node>, first: seq<nat>, n: Node)
    requires FirstSeen(nodes, seen, first) && (n.id == 0 || n.id in Ids(nodes))
    ensures FirstSeen(Push(nodes, SCENE_CAPACITY, n.id, n.semantic), seen + [n], first)
  {
    var after := Push(nodes, SCENE_CAPACITY, n.id, n.semantic);
    assert |after| == |nodes| && Ids(after) == Ids(nodes);
    forall i | 0 <= i < |after|
      ensures after[i].id == nodes[i].id && FirstAt(seen + [n], first[i], after[i].id)
      ensures FirstKnown(seen + [n], after[i].id, after[i].semantic)
    {
      FirstAtMore(seen, n, first[i], nodes[i].id);
      FirstKnownMore(seen, n, nodes[i].id, nodes[i].semantic);
      SemanticAfter(nodes, n, i, first, seen);
    }
    hide Push;
    hide FirstAt;
    hide FirstKnown;
  }

  lemma SemanticAfter(nodes: seq<Node>, n: Node, i: nat, first: seq<nat>, seen: seq<Node>)
    requires FirstSeen(nodes, seen, first) && i < |nodes| && (n.id == 0 || n.id in Ids(nodes))
    ensures var after := Push(nodes, SCENE_CAPACITY, n.id, n.semantic);
            && |after| == |nodes|
            && after[i] == if n.id == nodes[i].id && nodes[i].semantic == Unknown then n else nodes[i]
  {
    var k := IndexOf(Ids(nodes), n.id);
    if k.Some? {
      var j := k.value;
      assert nodes[j].id == Ids(nodes)[j] == n.id;
      assert FirstAt(seen, first[i], nodes[i].id) && FirstAt(seen, first[j], nodes[j].id);
      assert n.id == nodes[i].id ==> first[i] == first[j] && i == j;
    }
  }

  /** An item that is met for the first time while there is room. */
  lemma NewSighting(nodes: seq<Node>, seen: seq<Node>, first: seq<nat>, n: Node)
    requires FirstSeen(nodes, seen, first) && n.id != 0 && n.id !in Ids(nodes) && |nodes| < SCENE_CAPACITY
    ensures FirstSeen(Push(nodes, SCENE_CAPACITY, n.id, n.semantic), seen + [n], first + [|seen|])
  {
    var after := nodes + [n];
    assert Push(nodes, SCENE_CAPACITY, n.id, n.semantic) == after && Ids(after) == Ids(nodes) + [n.id];
    FirstKnownNew(seen, n);
    FirstAtMore(seen, n, |seen|, n.id);
    forall i | 0 <= i < |nodes|
      ensures FirstAt(seen + [n], first[i], nodes[i].id) && FirstKnown(seen + [n], nodes[i].id, nodes[i].semantic)
    {
      assert Ids(nodes)[i] != n.id;
      FirstAtMore(seen, n, first[i], nodes[i].id);
      FirstKnownMore(seen, n, nodes[i].id, nodes[i].semantic);
    }
    hide FirstKnown;
    hide Push;
  }

  /** An item that is met for the first time when the table is full. */
  lemma LateSighting(nodes: seq<Node>, seen: seq<Node>, first: seq<nat>, n: Node)
    requires FirstSeen(nodes, seen, first) && n.id != 0 && n.id !in Ids(nodes) && |nodes| == SCENE_CAPACITY
    ensures FirstSeen(Push(nodes, SCENE_CAPACITY, n.id, n.semantic), seen + [n], first)
  {
    assert Push(nodes, SCENE_CAPACITY, n.id, n.semantic) == nodes;
    forall i | 0 <= i < |nodes|
      ensures FirstAt(seen + [n], first[i], nodes[i].id) && FirstKnown(seen + [n], nodes[i].id, nodes[i].semantic)
    {
      assert Ids(nodes)[i] != n.id;
      FirstAtMore(seen, n, first[i], nodes[i].id);
      FirstKnownMore(seen, n, nodes[i].id, nodes[i].semantic);
    }
    assert first[SCENE_CAPACITY - 1] < |seen|;
    hide FirstAt;
    hide FirstKnown;
    hide Push;
  }

  lemma AtMostCapacity(nodes: seq<Node>, seen: seq<Node>, first: seq<nat>)
    requires FirstSeen(nodes, seen, first)
    ensures |nodes| <= SCENE_CAPACITY
  {
  }

  lemma OneMoreSighting(nodes: seq<Node>, seen: seq<Node>, n: Node)
    requires TableOf(nodes, seen)
    ensures TableOf(Push(nodes, SCENE_CAPACITY, n.id, n.semantic), seen + [n])
  {
    hide FirstSeen;
    hide Push;
    var first :| FirstSeen(nodes, seen, first);
    assert |nodes| <= SCENE_CAPACITY by {
      AtMostCapacity(nodes, seen, first);
    }
    if n.id == 0 || n.id in Ids(nodes) {
      KnownSighting(nodes, seen, first, n);
    } else if |nodes| < SCENE_CAPACITY {
      NewSighting(nodes, seen, first, n);
    } else {
      LateSighting(nodes, seen, first, n);
    }
  }

  lemma {:induction false} InfosAreSighted(nodes: seq<Node>, seen: seq<Node>, infos: seq<Node>)
    requires TableOf(nodes, seen)
    ensures TableOf(PushInfos(nodes, infos), seen + infos)
  {
    hide TableOf;
    hide Push;
    if infos == [] {
      assert seen + infos == seen;
    } else {
      var init, last := infos[..|infos| - 1], infos[|infos| - 1];
      InfosAreSighted(nodes, seen, init);
      OneMoreSighting(PushInfos(nodes, init), seen + init, last);
      assert seen + infos == (seen + init) + [last];
    }
  }

  lemma EdgeIsSighted(nodes: seq<Node>, seen: seq<Node>, e: RefEdge)
    requires TableOf(nodes, seen)
    ensures TableOf(Push(Push(nodes, SCENE_CAPACITY, e.fromItem, RelationSourceSemantic(e.refType)), SCENE_CAPACITY,
                         e.toItem, Unknown), seen + EdgeSightings(e))
  {
    hide TableOf;
    hide Push;
    var s := EdgeSightings(e);
    assert s[0].semantic == RelationSourceSemantic(e.refType);
    OneMoreSighting(nodes, seen, s[0]);
    OneMoreSighting(Push(nodes, SCENE_CAPACITY, e.fromItem, RelationSourceSemantic(e.refType)), seen + [s[0]], s[1]);
    assert seen + s == (seen + [s[0]]) + [s[1]];
  }

  lemma {:induction false} EdgesAreSighted(nodes: seq<Node>, seen: seq<Node>, edges: seq<RefEdge>)
    requires TableOf(nodes, seen)
    ensures TableOf(PushEdges(nodes, edges), seen + AllEdgeSightings(edges))
  {
    hide TableOf;
    hide Push;
    hide EdgeSightings;
    hide RelationSourceSemantic;
    if edges == [] {
      assert seen + [] == seen;
    } else {
      var init, last := edges[..|edges| - 1], edges[|edges| - 1];
      EdgesAreSighted(nodes, seen, init);
      EdgeIsSighted(PushEdges(nodes, init), seen + AllEdgeSightings(init), last);
      assert seen + AllEdgeSightings(edges) == (seen + AllEdgeSightings(init)) + EdgeSightings(last);
    }
  }

  /** The table of a scene is that of its sightings. */
  lemma SceneIsSighted(primary: Option<U32>, infos: seq<Node>, edges: seq<RefEdge>)
    ensures TableOf(SceneNodes(primary, infos, edges), Sightings(primary, infos, edges))
  {
    var none: seq<Node> := [];
    assert FirstSeen(none, [], []);
    hide TableOf;
    hide Push;
    hide PushEdges;
    hide PushInfos;
    var start, seen: seq<Node> := none, [];
    if primary.Some? {
      start, seen := Push([], SCENE_CAPACITY, primary.value, Unknown), [Node(primary.value, Unknown)];
      OneMoreSighting([], [], Node(primary.value, Unknown));
      assert [] + seen == seen;
    }
    InfosAreSighted(start, seen, infos);
    EdgesAreSighted(PushInfos(start, infos), seen + infos, edges);
  }
}
