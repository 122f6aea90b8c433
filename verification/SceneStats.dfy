/** The counters kept for each component of the scene graph, and what they count. */
module SceneStats {
  import opened Bytes
  import opened ItemData
  import opened SceneTable

  datatype SemanticCounts = SemanticCounts(
    known: nat, metadata: nat, image: nat, exif: nat, xmp: nat, jumbf: nat, c2pa: nat, iccProfile: nat,
    auxiliary: nat, derived: nat, thumbnail: nat, contentDescription: nat, uri: nat, json: nat)

  datatype AuxSemantic = AuxUnknown | Alpha | Depth | Disparity | Matte

  datatype ComponentStats = ComponentStats(
    nodes: nat, imageNodes: nat, metadataNodes: nat, contentBoundNodes: nat, semantics: SemanticCounts,
    edges: nat, auxiliaryEdges: nat, alphaEdges: nat, depthEdges: nat, disparityEdges: nat, matteEdges: nat,
    derivedEdges: nat, thumbnailEdges: nat, descriptionEdges: nat, otherEdges: nat, containsPrimary: bool)

  const NO_STATS := ComponentStats(0, 0, 0, 0, SemanticCounts(0, 0, 0, 0, 0, 0, 0, 0, 0, 0, 0, 0, 0, 0), 0, 0, 0, 0, 0,
                                   0, 0, 0, 0, 0, false)

  function CountSemantic(c: SemanticCounts, s: ItemSemantic): SemanticCounts {
    if !IsKnown(s) then c
    else
      var k := c.(known := c.known + 1, metadata := c.metadata + (if IsMetadata(s) then 1 else 0));
      match s
      case Image => k.(image := k.image + 1)
      case Exif => k.(exif := k.exif + 1)
      case Xmp => k.(xmp := k.xmp + 1)
      case Jumbf => k.(jumbf := k.jumbf + 1)
      case C2pa => k.(c2pa := k.c2pa + 1)
      case IccProfile => k.(iccProfile := k.iccProfile + 1)
      case Auxiliary => k.(auxiliary := k.auxiliary + 1)
      case DerivedImage => k.(derived := k.derived + 1)
      case Thumbnail => k.(thumbnail := k.thumbnail + 1)
      case ContentDescription => k.(contentDescription := k.contentDescription + 1)
      case Uri => k.(uri := k.uri + 1)
      case Json => k.(json := k.json + 1)
      case Unknown => k
  }

  function AddNode(st: ComponentStats, node: Node, primary: Option<U32>): ComponentStats {
    st.(nodes := st.nodes + 1,
        semantics := CountSemantic(st.semantics, node.semantic),
        imageNodes := st.imageNodes + (if IsSceneImage(node.semantic) then 1 else 0),
        metadataNodes := st.metadataNodes + (if IsMetadata(node.semantic) then 1 else 0),
        contentBoundNodes := st.contentBoundNodes + (if IsContentBound(node.semantic) then 1 else 0),
        containsPrimary := st.containsPrimary || primary == Some(node.id))
  }

  function AddEdge(st: ComponentStats, refType: U32, aux: AuxSemantic): ComponentStats {
    var counted := st.(edges := st.edges + 1);
    if refType == Auxl() then
      var auxiliary := counted.(auxiliaryEdges := st.auxiliaryEdges + 1);
      match aux
      case Alpha => auxiliary.(alphaEdges := st.alphaEdges + 1)
      case Depth => auxiliary.(depthEdges := st.depthEdges + 1)
      case Disparity => auxiliary.(disparityEdges := st.disparityEdges + 1)
      case Matte => auxiliary.(matteEdges := st.matteEdges + 1)
      case AuxUnknown => auxiliary
    else if refType == Dimg() then counted.(derivedEdges := st.derivedEdges + 1)
    else if refType == Thmb() then counted.(thumbnailEdges := st.thumbnailEdges + 1)
    else if refType == Cdsc() then counted.(descriptionEdges := st.descriptionEdges + 1)
    else counted.(otherEdges := st.otherEdges + 1)
  }

  /** The counters of component `c` after the nodes that `labels` covers. */
  function NodeStats(nodes: seq<Node>, labels: seq<nat>, c: nat, primary: Option<U32>): ComponentStats
    requires |labels| <= |nodes|
  {
    if labels == [] then NO_STATS
    else
      var i := |labels| - 1;
      var st := NodeStats(nodes, labels[..i], c, primary);
      if labels[i] == c then AddNode(st, nodes[i], primary) else st
  }

  /** The component in which an edge is counted: that of its source, if the table knows the source. */
  function EdgeLabel(ids: seq<U32>, labels: seq<nat>, e: RefEdge): Option<nat>
    requires |ids| == |labels|
  {
    match IndexOf(ids, e.fromItem)
    case None => None
    case Some(i) => Some(labels[i])
  }

  function AuxOf(aux: map<U32, AuxSemantic>, id: U32): AuxSemantic {
    if id in aux then aux[id] else AuxUnknown
  }

  /** The counters of component `c` after the edges, starting from those of its nodes. */
  function EdgeStats(base: ComponentStats, ids: seq<U32>, labels: seq<nat>, edges: seq<RefEdge>, c: nat,
                     aux: map<U32, AuxSemantic>): ComponentStats
    requires |ids| == |labels|
  {
    if edges == [] then base
    else
      var e := edges[|edges| - 1];
      var st := EdgeStats(base, ids, labels, edges[..|edges| - 1], c, aux);
      if EdgeLabel(ids, labels, e) == Some(c) then AddEdge(st, e.refType, AuxOf(aux, e.fromItem)) else st
  }

  // ----- what the counters mean ------------------------------------------------------------------

  ghost function NodesOf(labels: seq<nat>, c: nat): set<nat> {
    set i: nat | i < |labels| && labels[i] == c
  }

  ghost function EdgesOf(ids: seq<U32>, labels: seq<nat>, edges: seq<RefEdge>, c: nat): set<nat>
    requires |ids| == |labels|
  {
    set k: nat | k < |edges| && EdgeLabel(ids, labels, edges[k]) == Some(c)
  }

  /** The node counters agree with one another. */
  ghost predicate NodeBooks(st: ComponentStats) {
    && st.semantics.known == st.imageNodes + st.metadataNodes
    && st.semantics.metadata == st.metadataNodes
    && st.contentBoundNodes == st.semantics.jumbf + st.semantics.c2pa
    && st.imageNodes == st.semantics.image + st.semantics.auxiliary + st.semantics.derived + st.semantics.thumbnail
    && st.metadataNodes == st.semantics.exif + st.semantics.xmp + st.semantics.jumbf + st.semantics.c2pa
                           + st.semantics.iccProfile + st.semantics.contentDescription + st.semantics.uri
                               + st.semantics.json
  }

  /** The edge counters agree with one another. */
  ghost predicate EdgeBooks(st: ComponentStats) {
    && st.edges == st.auxiliaryEdges + st.derivedEdges + st.thumbnailEdges + st.descriptionEdges + st.otherEdges
    && st.alphaEdges + st.depthEdges + st.disparityEdges + st.matteEdges <= st.auxiliaryEdges
  }

  lemma AddNodeKeepsBooks(st: ComponentStats, node: Node, primary: Option<U32>)
    requires NodeBooks(st)
    ensures NodeBooks(AddNode(st, node, primary))
    ensures EdgeBooks(AddNode(st, node, primary)) == EdgeBooks(st) && AddNode(st, node, primary).edges == st.edges
    ensures AddNode(st, node, primary).nodes == st.nodes + 1
    ensures AddNode(st, node, primary).containsPrimary <==> st.containsPrimary || primary == Some(node.id)
  {
  }

  lemma EmptyBooks()
    ensures NodeBooks(NO_STATS) && EdgeBooks(NO_STATS) && NO_STATS.edges == 0
  {
    var st := NO_STATS;
    assert st.edges == 0 && st.auxiliaryEdges == 0;
  }

  lemma {:induction false} NodeStatsBooks(nodes: seq<Node>, labels: seq<nat>, c: nat, primary: Option<U32>)
    requires |labels| <= |nodes|
    ensures NodeBooks(NodeStats(nodes, labels, c, primary))
    ensures EdgeBooks(NodeStats(nodes, labels, c, primary)) && NodeStats(nodes, labels, c, primary).edges == 0
  {
    hide AddNode;
    hide NodeBooks;
    hide EdgeBooks;
    hide NO_STATS;
    EmptyBooks();
    if labels != [] {
      var i := |labels| - 1;
      NodeStatsBooks(nodes, labels[..i], c, primary);
      AddNodeKeepsBooks(NodeStats(nodes, labels[..i], c, primary), nodes[i], primary);
    }
  }

  /** The node counter counts the nodes of the component, and the flag looks for the primary item among them. */
  lemma {:induction false} NodeStatsMeaning(nodes: seq<Node>, labels: seq<nat>, c: nat, primary: Option<U32>)
    requires |labels| <= |nodes|
    ensures NodeStats(nodes, labels, c, primary).nodes == |NodesOf(labels, c)|
    ensures NodeStats(nodes, labels, c, primary).containsPrimary
            <==> exists i :: 0 <= i < |labels| && labels[i] == c && primary == Some(nodes[i].id)
  {
    hide AddNode;
    hide NodeBooks;
    hide EdgeBooks;
    if labels == [] {
      assert NodesOf(labels, c) == {};
    } else {
      var i := |labels| - 1;
      var st := NodeStats(nodes, labels[..i], c, primary);
      NodeStatsMeaning(nodes, labels[..i], c, primary);
      if labels[i] == c {
        assert NodesOf(labels, c) == NodesOf(labels[..i], c) + {i};
        NodeStatsBooks(nodes, labels[..i], c, primary);
        AddNodeKeepsBooks(st, nodes[i], primary);
      } else {
        assert NodesOf(labels, c) == NodesOf(labels[..i], c);
      }
    }
  }

  /** The edge counters leave the node counters alone. */
  ghost predicate SameNodeCounters(st: ComponentStats, base: ComponentStats) {
    && st.nodes == base.nodes && st.imageNodes == base.imageNodes && st.metadataNodes == base.metadataNodes
    && st.semantics == base.semantics && st.contentBoundNodes == base.contentBoundNodes
    && st.containsPrimary == base.containsPrimary
  }

  lemma AddEdgeKeepsBooks(st: ComponentStats, refType: U32, aux: AuxSemantic)
    requires EdgeBooks(st)
    ensures EdgeBooks(AddEdge(st, refType, aux)) && SameNodeCounters(AddEdge(st, refType, aux), st)
    ensures AddEdge(st, refType, aux).edges == st.edges + 1
  {
  }

  lemma {:induction false} EdgeStatsBooks(base: ComponentStats, ids: seq<U32>, labels: seq<nat>, edges: seq<RefEdge>,
                                          c: nat, aux: map<U32, AuxSemantic>)
    requires |ids| == |labels| && EdgeBooks(base)
    ensures EdgeBooks(EdgeStats(base, ids, labels, edges, c, aux))
    ensures SameNodeCounters(EdgeStats(base, ids, labels, edges, c, aux), base)
  {
    hide AddEdge;
    hide EdgeBooks;
    hide AuxOf;
    if edges != [] {
      var k := |edges| - 1;
      EdgeStatsBooks(base, ids, labels, edges[..k], c, aux);
      AddEdgeKeepsBooks(EdgeStats(base, ids, labels, edges[..k], c, aux), edges[k].refType,
                        AuxOf(aux, edges[k].fromItem));
    }
  }

  lemma EdgesOfLast(ids: seq<U32>, labels: seq<nat>, edges: seq<RefEdge>, c: nat)
    requires |ids| == |labels|
    ensures edges == [] ==> |EdgesOf(ids, labels, edges, c)| == 0
    ensures edges != [] ==>
              var k := |edges| - 1;
              |EdgesOf(ids, labels, edges, c)|
              == |EdgesOf(ids, labels, edges[..k], c)| + if EdgeLabel(ids, labels, edges[k]) == Some(c) then 1 else 0
  {
    hide IndexOf;
    if edges == [] {
      assert EdgesOf(ids, labels, edges, c) == {};
    } else {
      var k := |edges| - 1;
      var init := edges[..k];
      var last := if EdgeLabel(ids, labels, edges[k]) == Some(c) then {k} else {};
      assert EdgesOf(ids, labels, edges, c) == EdgesOf(ids, labels, init, c) + last;
      assert EdgesOf(ids, labels, init, c) !! last;
    }
  }

  /** An edge with a known source is counted once, in the component of its source. */
  lemma {:induction false} EdgeStatsMeaning(base: ComponentStats, ids: seq<U32>, labels: seq<nat>, edges: seq<RefEdge>,
                                            c: nat, aux: map<U32, AuxSemantic>)
    requires |ids| == |labels| && base.edges == 0 && EdgeBooks(base)
    ensures EdgeStats(base, ids, labels, edges, c, aux).edges == |EdgesOf(ids, labels, edges, c)|
  {
    hide AddEdge;
    hide EdgeBooks;
    hide SameNodeCounters;
    hide AuxOf;
    hide EdgesOf;
    EdgesOfLast(ids, labels, edges, c);
    if edges != [] {
      var k := |edges| - 1;
      EdgeStatsMeaning(base, ids, labels, edges[..k], c, aux);
      if EdgeLabel(ids, labels, edges[k]) == Some(c) {
        EdgeStatsBooks(base, ids, labels, edges[..k], c, aux);
        AddEdgeKeepsBooks(EdgeStats(base, ids, labels, edges[..k], c, aux), edges[k].refType,
                          AuxOf(aux, edges[k].fromItem));
      }
    }
  }

  // ----- every single counter ---------------------------------------------------------------------

  /** The counter for nodes of a known semantic. */
  function SemanticCounter(st: ComponentStats, s: ItemSemantic): nat {
    match s
    case Unknown => 0
    case Image => st.semantics.image
    case Exif => st.semantics.exif
    case Xmp => st.semantics.xmp
    case Jumbf => st.semantics.jumbf
    case C2pa => st.semantics.c2pa
    case IccProfile => st.semantics.iccProfile
    case Auxiliary => st.semantics.auxiliary
    case DerivedImage => st.semantics.derived
    case Thumbnail => st.semantics.thumbnail
    case ContentDescription => st.semantics.contentDescription
    case Uri => st.semantics.uri
    case Json => st.semantics.json
  }

  ghost function SemanticNodes(nodes: seq<Node>, labels: seq<nat>, c: nat, s: ItemSemantic): set<nat>
    requires |labels| <= |nodes|
  {
    set i: nat | i < |labels| && labels[i] == c && nodes[i].semantic == s
  }

  lemma AddNodeCounts(st: ComponentStats, node: Node, primary: Option<U32>, s: ItemSemantic)
    requires IsKnown(s)
    ensures SemanticCounter(AddNode(st, node, primary), s) == SemanticCounter(st, s) + if node.semantic == s then 1
            else 0
  {
  }

  ghost function Where(flags: seq<bool>): set<nat> { set i: nat | i < |flags| && flags[i] }

  lemma WhereLast(flags: seq<bool>)
    requires flags != []
    ensures var k := |flags| - 1; |Where(flags)| == |Where(flags[..k])| + if flags[k] then 1 else 0
  {
    var k := |flags| - 1;
    var init, here := flags[..k], if flags[k] then {k} else {};
    forall i: nat ensures i in Where(flags) <==> i in Where(init) || i in here {
      if i < k {
        assert init[i] == flags[i];
      }
    }
    assert Where(flags) == Where(init) + here;
    assert k !in Where(init);
    hide Where;
  }

  lemma SemanticNodesLast(nodes: seq<Node>, labels: seq<nat>, c: nat, s: ItemSemantic)
    requires |labels| <= |nodes|
    ensures labels == [] ==> |SemanticNodes(nodes, labels, c, s)| == 0
    ensures labels != [] ==>
              var i := |labels| - 1;
              |SemanticNodes(nodes, labels, c, s)|
              == |SemanticNodes(nodes, labels[..i], c, s)| + if labels[i] == c && nodes[i].semantic == s then 1 else 0
  {
    var flags := seq(|labels|, i requires 0 <= i < |labels| => labels[i] == c && nodes[i].semantic == s);
    assert SemanticNodes(nodes, labels, c, s) == Where(flags);
    if labels == [] {
      assert Where(flags) == {};
    } else {
      var i := |labels| - 1;
      var init, before := labels[..i], flags[..i];
      assert forall k :: 0 <= k < i ==> init[k] == labels[k] && before[k] == flags[k];
      assert SemanticNodes(nodes, init, c, s) == Where(before);
      WhereLast(flags);
    }
  }

  /** The counter of a semantic counts the nodes of the component that have it. */
  lemma {:induction false} SemanticCounterMeaning(nodes: seq<Node>, labels: seq<nat>, c: nat, primary: Option<U32>,
                                                  s: ItemSemantic)
    requires |labels| <= |nodes| && IsKnown(s)
    ensures SemanticCounter(NodeStats(nodes, labels, c, primary), s) == |SemanticNodes(nodes, labels, c, s)|
  {
    hide AddNode;
    hide SemanticNodes;
    assert SemanticCounter(NO_STATS, s) == 0;
    hide SemanticCounter;
    SemanticNodesLast(nodes, labels, c, s);
    if labels != [] {
      var i := |labels| - 1;
      SemanticCounterMeaning(nodes, labels[..i], c, primary, s);
      AddNodeCounts(NodeStats(nodes, labels[..i], c, primary), nodes[i], primary, s);
    }
  }

  /** What an edge is counted as: one of five relations, and for auxiliary images one of four uses. */
  datatype EdgeClass =
    | AuxiliaryRelation | DerivedRelation | ThumbnailRelation | DescriptionRelation | OtherRelation
    | AuxiliaryUse(use: AuxSemantic)

  predicate InClass(refType: U32, aux: AuxSemantic, r: EdgeClass) {
    match r
    case AuxiliaryRelation => refType == Auxl()
    case DerivedRelation => refType == Dimg()
    case ThumbnailRelation => refType == Thmb()
    case DescriptionRelation => refType == Cdsc()
    case OtherRelation => refType != Auxl() && refType != Dimg() && refType != Thmb() && refType != Cdsc()
    case AuxiliaryUse(use) => refType == Auxl() && use == aux && use != AuxUnknown
  }

  function EdgeCounter(st: ComponentStats, r: EdgeClass): nat {
    match r
    case AuxiliaryRelation => st.auxiliaryEdges
    case DerivedRelation => st.derivedEdges
    case ThumbnailRelation => st.thumbnailEdges
    case DescriptionRelation => st.descriptionEdges
    case OtherRelation => st.otherEdges
    case AuxiliaryUse(Alpha) => st.alphaEdges
    case AuxiliaryUse(Depth) => st.depthEdges
    case AuxiliaryUse(Disparity) => st.disparityEdges
    case AuxiliaryUse(Matte) => st.matteEdges
    case AuxiliaryUse(AuxUnknown) => 0
  }

  ghost function ClassEdges(ids: seq<U32>, labels: seq<nat>, edges: seq<RefEdge>, c: nat, aux: map<U32, AuxSemantic>,
                            r: EdgeClass): set<nat>
    requires |ids| == |labels|
  {
    set k: nat | k < |edges| && EdgeLabel(ids, labels, edges[k]) == Some(c)
        && InClass(edges[k].refType, AuxOf(aux, edges[k].fromItem), r)
  }

  lemma AddEdgeCounts(st: ComponentStats, refType: U32, aux: AuxSemantic, r: EdgeClass)
    ensures EdgeCounter(AddEdge(st, refType, aux), r) == EdgeCounter(st, r) + if InClass(refType, aux, r) then 1 else 0
  {
  }

  lemma NoEdgesYet(st: ComponentStats, r: EdgeClass)
    requires EdgeBooks(st) && st.edges == 0
    ensures EdgeCounter(st, r) == 0
  {
  }

  lemma ClassEdgesLast(ids: seq<U32>, labels: seq<nat>, edges: seq<RefEdge>, c: nat, aux: map<U32, AuxSemantic>,
                       r: EdgeClass)
    requires |ids| == |labels|
    ensures edges == [] ==> |ClassEdges(ids, labels, edges, c, aux, r)| == 0
    ensures edges != [] ==>
              var k := |edges| - 1;
              |ClassEdges(ids, labels, edges, c, aux, r)|
              == |ClassEdges(ids, labels, edges[..k], c, aux, r)|
                 + if EdgeLabel(ids, labels, edges[k]) == Some(c)
                     && InClass(edges[k].refType, AuxOf(aux, edges[k].fromItem), r) then 1 else 0
  {
    hide EdgeLabel;
    hide InClass;
    hide AuxOf;
    var flags := seq(|edges|, k requires 0 <= k < |edges| =>
      EdgeLabel(ids, labels, edges[k]) == Some(c) && InClass(edges[k].refType, AuxOf(aux, edges[k].fromItem), r));
    assert ClassEdges(ids, labels, edges, c, aux, r) == Where(flags);
    if edges == [] {
      assert Where(flags) == {};
    } else {
      var k := |edges| - 1;
      var init, before := edges[..k], flags[..k];
      assert forall j :: 0 <= j < k ==> init[j] == edges[j] && before[j] == flags[j];
      assert ClassEdges(ids, labels, init, c, aux, r) == Where(before);
      WhereLast(flags);
    }
  }

  /** The counter of a class of edges counts those of the class whose source is in the component. */
  lemma {:induction false} EdgeCounterMeaning(base: ComponentStats, ids: seq<U32>, labels: seq<nat>,
                                              edges: seq<RefEdge>, c: nat,
                                              aux: map<U32, AuxSemantic>, r: EdgeClass)
    requires |ids| == |labels| && base.edges == 0 && EdgeBooks(base)
    ensures EdgeCounter(EdgeStats(base, ids, labels, edges, c, aux), r) == |ClassEdges(ids, labels, edges, c, aux, r)|
  {
    hide AddEdge;
    hide InClass;
    hide AuxOf;
    hide EdgeLabel;
    hide ClassEdges;
    NoEdgesYet(base, r);
    hide EdgeCounter;
    hide EdgeBooks;
    ClassEdgesLast(ids, labels, edges, c, aux, r);
    if edges != [] {
      var k := |edges| - 1;
      EdgeCounterMeaning(base, ids, labels, edges[..k], c, aux, r);
      AddEdgeCounts(EdgeStats(base, ids, labels, edges[..k], c, aux), edges[k].refType, AuxOf(aux, edges[k].fromItem),
                    r);
    }
  }

  // ----- nothing is counted twice or lost ----------------------------------------------------------

  ghost function SumNodes(labels: seq<nat>, count: nat): nat {
    if count == 0 then 0 else SumNodes(labels, count - 1) + |NodesOf(labels, count - 1)|
  }

  ghost function SumEdges(ids: seq<U32>, labels: seq<nat>, edges: seq<RefEdge>, count: nat): nat
    requires |ids| == |labels|
  {
    if count == 0 then 0 else SumEdges(ids, labels, edges, count - 1) + |EdgesOf(ids, labels, edges, count - 1)|
  }

  lemma {:induction false} SumNodesBelow(labels: seq<nat>, count: nat)
    ensures SumNodes(labels, count) == |set i: nat | i < |labels| && labels[i] < count|
  {
    var below := set i: nat | i < |labels| && labels[i] < count;
    if count == 0 {
      assert below == {};
    } else {
      SumNodesBelow(labels, count - 1);
      var rest := set i: nat | i < |labels| && labels[i] < count - 1;
      assert below == rest + NodesOf(labels, count - 1);
      assert rest !! NodesOf(labels, count - 1);
    }
  }

  ghost function EdgesBelow(ids: seq<U32>, labels: seq<nat>, edges: seq<RefEdge>, count: nat): set<nat>
    requires |ids| == |labels|
  {
    set k: nat | k < |edges| && EdgeLabel(ids, labels, edges[k]).Some? && EdgeLabel(ids, labels, edges[k]).value < count
  }

  lemma EdgesBelowSplit(ids: seq<U32>, labels: seq<nat>, edges: seq<RefEdge>, c: nat)
    requires |ids| == |labels|
    ensures EdgesBelow(ids, labels, edges, c + 1) == EdgesBelow(ids, labels, edges, c) + EdgesOf(ids, labels, edges, c)
    ensures EdgesBelow(ids, labels, edges, c) !! EdgesOf(ids, labels, edges, c)
  {
    hide EdgeLabel;
  }

  lemma {:induction false} SumEdgesBelow(ids: seq<U32>, labels: seq<nat>, edges: seq<RefEdge>, count: nat)
    requires |ids| == |labels|
    ensures SumEdges(ids, labels, edges, count) == |EdgesBelow(ids, labels, edges, count)|
  {
    hide EdgesOf;
    if count == 0 {
      assert EdgesBelow(ids, labels, edges, count) == {};
    } else {
      SumEdgesBelow(ids, labels, edges, count - 1);
      EdgesBelowSplit(ids, labels, edges, count - 1);
    }
  }

  lemma {:induction false} AllBelow(labels: seq<nat>, count: nat)
    requires forall i :: 0 <= i < |labels| ==> labels[i] < count
    ensures |set i: nat | i < |labels| && labels[i] < count| == |labels|
  {
    var all := set i: nat | i < |labels| && labels[i] < count;
    if labels == [] {
      assert all == {};
    } else {
      var last := |labels| - 1;
      var init := labels[..last];
      AllBelow(init, count);
      assert all == (set i: nat | i < |init| && init[i] < count) + {last};
    }
  }

  /** Node counts add up to the node total. */
  lemma NodeCountsAddUp(labels: seq<nat>, count: nat)
    requires forall i :: 0 <= i < |labels| ==> labels[i] < count
    ensures SumNodes(labels, count) == |labels|
  {
    SumNodesBelow(labels, count);
    AllBelow(labels, count);
  }

  /** Edge counts add up to the number of edges whose source is in the table. */
  lemma EdgeCountsAddUp(ids: seq<U32>, labels: seq<nat>, edges: seq<RefEdge>, count: nat)
    requires |ids| == |labels| && forall i :: 0 <= i < |labels| ==> labels[i] < count
    ensures SumEdges(ids, labels, edges, count) == |set k: nat | k < |edges| && edges[k].fromItem in ids|
  {
    SumEdgesBelow(ids, labels, edges, count);
    assert EdgesBelow(ids, labels, edges, count) == set k: nat | k < |edges| && edges[k].fromItem in ids;
  }
}
