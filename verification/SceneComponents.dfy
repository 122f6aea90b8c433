/** The connected components of the scene graph, their labels, and their counters. */
module SceneComponents {
  import opened Bytes
  import opened ItemData
  import opened SceneTable
  import opened SceneSightings
  import opened SceneStats
  import opened SceneRelations
  import UF = UnionFind

  lemma InitialRoots(p: seq<nat>)
    requires forall i :: 0 <= i < |p| ==> p[i] == i
    ensures UF.RootsFollowEdges(p, [])
  {
    forall i | 0 <= i < |p| ensures UF.Connected([], i, UF.Root(p, i)) {
      UF.ConnectedSelf([], i);
    }
  }

  method UnionEdges(table: Table, edges: seq<RefEdge>)
    requires table.Valid()
    modifies table.parent
    ensures table.Nodes() == old(table.Nodes())
    ensures table.count <= table.parent.Length
    ensures UF.RootsFollowEdges(table.parent[..table.count], IndexEdges(Ids(table.Nodes()), edges))
  {
    var n := table.count;
    ghost var ids := Ids(table.Nodes());
    assert table.ids[..n] == ids;
    InitialRoots(table.parent[..n]);
    var i := 0;
    while i < |edges|
      invariant 0 <= i <= |edges|
      invariant UF.RootsFollowEdges(table.parent[..n], IndexEdges(ids, edges[..i]))
    {
      assert edges[..i + 1][..i] == edges[..i];
      var a := FindSceneNodeIndex(table.ids, n, edges[i].fromItem);
      var b := FindSceneNodeIndex(table.ids, n, edges[i].toItem);
      if a.Some? && b.Some? {
        ghost var p := table.parent[..n];
        UF.Union(table.parent, n, a.value, b.value);
        UF.UnionFollowsEdge(p, table.parent[..n], IndexEdges(ids, edges[..i]), a.value, b.value);
      }
      i := i + 1;
    }
    assert edges[..i] == edges;
  }

  // ----- labels -----------------------------------------------------------------------------------

  /** Nodes carry the index of their root in `roots`, which lists the roots from left to right. */
  ghost predicate Labelled(p: seq<nat>, labels: seq<nat>, roots: seq<nat>) {
    && UF.ValidParents(p) && |labels| <= |p|
    && (forall c :: 0 <= c < |roots| ==> roots[c] < |labels| && UF.Root(p, roots[c]) == roots[c])
    && (forall c, d :: 0 <= c < d < |roots| ==> roots[c] < roots[d])
    && (forall i :: 0 <= i < |labels| ==> labels[i] < |roots| && roots[labels[i]] == UF.Root(p, i))
  }

  /** Labels are equal exactly when the roots are, and the node with index 0 has label 0. */
  lemma LabelsAreRoots(p: seq<nat>, labels: seq<nat>, roots: seq<nat>, i: nat, j: nat)
    requires Labelled(p, labels, roots) && i < |labels| && j < |labels|
    ensures labels[i] == labels[j] <==> UF.Root(p, i) == UF.Root(p, j)
    ensures labels[0] == 0
  {
    assert roots[labels[0]] == UF.Root(p, 0) == 0;
    assert forall d :: 0 < d < |roots| ==> roots[0] < roots[d];
    assert roots[labels[i]] == UF.Root(p, i) && roots[labels[j]] == UF.Root(p, j);
  }

  /** A node whose root has no label yet is its own root. */
  lemma NewRootIsNode(p: seq<nat>, labels: seq<nat>, roots: seq<nat>)
    requires Labelled(p, labels, roots) && |labels| < |p| && UF.Root(p, |labels|) !in roots
    ensures UF.Root(p, |labels|) == |labels|
  {
    var r := UF.Root(p, |labels|);
    forall j | 0 <= j < |labels|
      ensures UF.Root(p, j) in roots
    {
      assert roots[labels[j]] == UF.Root(p, j);
    }
    assert UF.Root(p, r) == r;
  }

  method FindLabel(roots: array<nat>, count: nat, root: nat) returns (c: nat)
    requires count <= roots.Length
    ensures c <= count && (c < count ==> roots[c] == root) && (c == count ==> root !in roots[..count])
  {
    c := 0;
    while c < count
      invariant 0 <= c <= count && root !in roots[..c]
    {
      if roots[c] == root {
        return;
      }
      c := c + 1;
    }
  }

  /** Labels node `i`, after the nodes before it; `p` is the parent array before any compression. */
  method LabelNode(parent: array<nat>, n: nat, i: nat, labels: array<nat>, roots: array<nat>, count: nat,
                   ghost p: seq<nat>) returns (c: nat, newCount: nat)
    requires i < n <= parent.Length && n <= labels.Length && n <= roots.Length && count <= i
    requires labels != roots && labels != parent && roots != parent
    requires UF.SameRoots(p, parent[..n]) && Labelled(p, labels[..i], roots[..count])
    modifies parent, labels, roots
    ensures UF.SameRoots(p, parent[..n]) && newCount <= i + 1
    ensures labels[..i + 1] == old(labels[..i]) + [c]
    ensures Labelled(p, labels[..i + 1], roots[..newCount])
  {
    var root := UF.FindRoot(parent, n, i);
    assert root == UF.Root(p, i);
    c := FindLabel(roots, count, root);
    newCount := count;
    if c == count {
      NewRootIsNode(p, labels[..i], roots[..count]);
      roots[count] := root;
      newCount := count + 1;
    }
    labels[i] := c;
    assert labels[..i + 1] == old(labels[..i]) + [c];
    assert c < count ==> roots[..newCount] == old(roots[..count]);
    assert c == count ==> roots[..newCount] == old(roots[..count]) + [root];
    LabelledExtends(p, old(labels[..i]), old(roots[..count]), c);
  }

  lemma LastLabel(p: seq<nat>, labels: seq<nat>, roots: seq<nat>)
    requires Labelled(p, labels, roots) && labels != []
    ensures labels[|labels| - 1] < |roots|
  {
  }

  lemma RootsSameAsSelf(p: seq<nat>)
    requires UF.ValidParents(p)
    ensures UF.SameRoots(p, p)
  {
  }

  lemma NothingLabelled(p: seq<nat>)
    requires UF.ValidParents(p)
    ensures Labelled(p, [], [])
  {
  }

  lemma LabelledExtends(p: seq<nat>, labels: seq<nat>, roots: seq<nat>, c: nat)
    requires Labelled(p, labels, roots) && |labels| < |p| && c <= |roots|
    requires c < |roots| ==> roots[c] == UF.Root(p, |labels|)
    requires c == |roots| ==> UF.Root(p, |labels|) == |labels|
    ensures Labelled(p, labels + [c], if c < |roots| then roots else roots + [UF.Root(p, |labels|)])
  {
    var newLabels := labels + [c];
    var newRoots := if c < |roots| then roots else roots + [UF.Root(p, |labels|)];
    forall i | 0 <= i < |newLabels|
      ensures newLabels[i] < |newRoots| && newRoots[newLabels[i]] == UF.Root(p, i)
    {
      if i < |labels| {
        assert roots[labels[i]] == UF.Root(p, i);
      }
    }
    forall d | 0 <= d < |newRoots|
      ensures newRoots[d] < |newLabels| && UF.Root(p, newRoots[d]) == newRoots[d]
    {
      if d < |roots| {
        assert newRoots[d] == roots[d];
      }
    }
  }

  /** The labels, the roots and the node counters of all components. */
  method LabelNodes(parent: array<nat>, nodes: seq<Node>, primary: Option<U32>, labels: array<nat>, roots: array<nat>,
                    stats: array<ComponentStats>) returns (count: nat)
    requires |nodes| <= SCENE_CAPACITY
    requires labels.Length == roots.Length == stats.Length == parent.Length == SCENE_CAPACITY
    requires labels != roots && labels != parent && roots != parent
    requires UF.ValidParents(parent[..|nodes|])
    requires forall c :: 0 <= c < SCENE_CAPACITY ==> stats[c] == NO_STATS
    modifies parent, labels, roots, stats
    ensures UF.SameRoots(old(parent[..|nodes|]), parent[..|nodes|])
    ensures count <= |nodes|
    ensures Labelled(old(parent[..|nodes|]), labels[..|nodes|], roots[..count])
    ensures forall c :: 0 <= c < SCENE_CAPACITY ==> stats[c] == NodeStats(nodes, labels[..|nodes|], c, primary)
  {
    hide Labelled;
    hide UF.SameRoots;
    hide AddNode;
    var n := |nodes|;
    ghost var p := parent[..n];
    RootsSameAsSelf(p);
    NothingLabelled(p);
    count := 0;
    assert labels[..0] == [] && roots[..0] == [];
    var i := 0;
    while i < n
      invariant 0 <= count <= i <= n
      invariant UF.SameRoots(p, parent[..n])
      invariant Labelled(p, labels[..i], roots[..count])
      invariant forall c :: 0 <= c < SCENE_CAPACITY ==> stats[c] == NodeStats(nodes, labels[..i], c, primary)
    {
      ghost var before := labels[..i];
      var c;
      c, count := LabelNode(parent, n, i, labels, roots, count, p);
      assert c < SCENE_CAPACITY by {
        LastLabel(p, labels[..i + 1], roots[..count]);
      }
      stats[c] := AddNode(stats[c], nodes[i], primary);
      assert labels[..i + 1][..i] == before;
      i := i + 1;
    }
  }

  /** Adds the references to the counters of the components of their sources. */
  method CountEdges(table: Table, labels: array<nat>, roots: array<nat>, count: nat, stats: array<ComponentStats>,
                    edges: seq<RefEdge>, aux: map<U32, AuxSemantic>, ghost p: seq<nat>)
    requires table.ids.Length == table.parent.Length == stats.Length == labels.Length == roots.Length == SCENE_CAPACITY
    requires table.count <= SCENE_CAPACITY && count <= table.count
    requires labels != roots && labels != table.parent && roots != table.parent
    requires UF.SameRoots(p, table.parent[..table.count])
    requires Labelled(p, labels[..table.count], roots[..count])
    modifies table.parent, stats
    ensures forall c :: 0 <= c < SCENE_CAPACITY ==>
              stats[c] == EdgeStats(old(stats[c]), table.ids[..table.count], labels[..table.count], edges, c, aux)
  {
    hide AddEdge;
    hide AuxOf;
    var n := table.count;
    ghost var ids, marks := table.ids[..n], labels[..n];
    var i := 0;
    while i < |edges|
      invariant 0 <= i <= |edges|
      invariant UF.SameRoots(p, table.parent[..n])
      invariant forall c :: 0 <= c < SCENE_CAPACITY ==>
                  stats[c] == EdgeStats(old(stats[c]), ids, marks, edges[..i], c, aux)
    {
      assert edges[..i + 1][..i] == edges[..i];
      var from := FindSceneNodeIndex(table.ids, n, edges[i].fromItem);
      if from.Some? {
        var root := UF.FindRoot(table.parent, n, from.value);
        var c := FindLabel(roots, count, root);
        LabelOfRoot(p, marks, roots[..count], from.value, c);
        stats[c] := AddEdge(stats[c], edges[i].refType, AuxOf(aux, edges[i].fromItem));
      }
      i := i + 1;
    }
    assert edges[..i] == edges;
  }

  /** Looking up the root of a node finds the label of the node. */
  lemma LabelOfRoot(p: seq<nat>, labels: seq<nat>, roots: seq<nat>, i: nat, c: nat)
    requires Labelled(p, labels, roots) && i < |labels| && c <= |roots|
    requires c < |roots| ==> roots[c] == UF.Root(p, i)
    requires c == |roots| ==> UF.Root(p, i) !in roots
    ensures c < |roots| && c == labels[i]
  {
    assert roots[labels[i]] == UF.Root(p, i);
  }

  // ----- the whole summary ---------------------------------------------------------------------------

  /** The component graph of a scene, as the source leaves it for printing. */
  datatype Summary = Summary(nodes: seq<Node>, labels: seq<nat>, components: seq<ComponentStats>)

  /** What the summary of a scene promises. */
  ghost predicate Describes(s: Summary, primary: Option<U32>, infos: seq<Node>, edges: seq<RefEdge>, aux: map<U32,
                            AuxSemantic>) {
    var ids := Ids(s.nodes);
    && s.nodes == SceneNodes(primary, infos, edges)
    // the nodes are in the order in which they are first met, each with the first known semantic
    && TableOf(s.nodes, Sightings(primary, infos, edges))
    && |s.labels| == |s.nodes|
    && (forall i :: 0 <= i < |s.labels| ==> s.labels[i] < |s.components|)
    // two nodes share a component exactly when references connect them
    && (forall i, j :: 0 <= i < |s.labels| && 0 <= j < |s.labels| ==>
          (s.labels[i] == s.labels[j] <==> Related(ids, edges, ids[i], ids[j])))
    // the counters count the members of the component
    && (forall c :: 0 <= c < |s.components| ==>
          && s.components[c].nodes == |NodesOf(s.labels, c)| > 0
          && s.components[c].edges == |EdgesFrom(ids, s.labels, edges, c)|
          && NodeBooks(s.components[c]) && EdgeBooks(s.components[c]))
    && (forall c, k :: 0 <= c < |s.components| && k != Unknown ==>
          SemanticCounter(s.components[c], k) == |SemanticNodes(s.nodes, s.labels, c, k)|)
    && (forall c, r :: 0 <= c < |s.components| ==>
          EdgeCounter(s.components[c], r) == |KindEdgesFrom(ids, s.labels, edges, c, aux, r)|)
    // a nonzero primary item is in component 0 and in no other
    && (forall c :: 0 <= c < |s.components| ==>
          (s.components[c].containsPrimary <==> primary.Some? && primary.value != 0 && c == 0))
  }

  /** The finished arrays of a scene. */
  ghost predicate Computed(s: Summary, p: seq<nat>, roots: seq<nat>, primary: Option<U32>, infos: seq<Node>,
                           edges: seq<RefEdge>, aux: map<U32, AuxSemantic>) {
    && s.nodes == SceneNodes(primary, infos, edges)
    && |s.labels| == |s.nodes| == |p|
    && UF.RootsFollowEdges(p, IndexEdges(Ids(s.nodes), edges))
    && Labelled(p, s.labels, roots) && |s.components| == |roots|
    && (forall c :: 0 <= c < |roots| ==>
          s.components[c] == EdgeStats(NodeStats(s.nodes, s.labels, c, primary), Ids(s.nodes), s.labels, edges, c, aux))
  }

  lemma TableIdsDistinct(s: Summary, p: seq<nat>, roots: seq<nat>, primary: Option<U32>, infos: seq<Node>,
                         edges: seq<RefEdge>, aux: map<U32, AuxSemantic>)
    requires Computed(s, p, roots, primary, infos, edges, aux)
    ensures DistinctIds(Ids(s.nodes))
  {
    SceneNodesProperties(primary, infos, edges);
  }

  lemma ComponentFacts(s: Summary, p: seq<nat>, roots: seq<nat>, primary: Option<U32>, infos: seq<Node>,
                       edges: seq<RefEdge>, aux: map<U32, AuxSemantic>, c: nat)
    requires Computed(s, p, roots, primary, infos, edges, aux) && c < |roots|
    ensures s.components[c].nodes == |NodesOf(s.labels, c)| > 0
    ensures s.components[c].edges == |EdgesFrom(Ids(s.nodes), s.labels, edges, c)|
    ensures NodeBooks(s.components[c]) && EdgeBooks(s.components[c])
    ensures s.components[c].containsPrimary
            <==> exists i :: 0 <= i < |s.labels| && s.labels[i] == c && primary == Some(s.nodes[i].id)
  {
    var base := NodeStats(s.nodes, s.labels, c, primary);
    NodeStatsMeaning(s.nodes, s.labels, c, primary);
    NodeStatsBooks(s.nodes, s.labels, c, primary);
    EdgeStatsBooks(base, Ids(s.nodes), s.labels, edges, c, aux);
    EdgeStatsMeaning(base, Ids(s.nodes), s.labels, edges, c, aux);
    TableIdsDistinct(s, p, roots, primary, infos, edges, aux);
    CountedEdges(Ids(s.nodes), s.labels, edges, c);
    LabelOfRoot(p, s.labels, roots, roots[c], c);
    assert roots[c] in NodesOf(s.labels, c);
  }

  lemma SemanticFacts(s: Summary, p: seq<nat>, roots: seq<nat>, primary: Option<U32>, infos: seq<Node>,
                      edges: seq<RefEdge>, aux: map<U32, AuxSemantic>, c: nat, k: ItemSemantic)
    requires Computed(s, p, roots, primary, infos, edges, aux) && c < |roots| && k != Unknown
    ensures SemanticCounter(s.components[c], k) == |SemanticNodes(s.nodes, s.labels, c, k)|
  {
    var base := NodeStats(s.nodes, s.labels, c, primary);
    NodeStatsBooks(s.nodes, s.labels, c, primary);
    EdgeStatsBooks(base, Ids(s.nodes), s.labels, edges, c, aux);
    SemanticCounterMeaning(s.nodes, s.labels, c, primary, k);
    hide NodeStats;
    hide EdgeStats;
    hide NodeBooks;
    hide EdgeBooks;
    hide Labelled;
    hide UF.RootsFollowEdges;
  }

  lemma EdgeClassFacts(s: Summary, p: seq<nat>, roots: seq<nat>, primary: Option<U32>, infos: seq<Node>,
                       edges: seq<RefEdge>, aux: map<U32, AuxSemantic>, c: nat, r: EdgeClass)
    requires Computed(s, p, roots, primary, infos, edges, aux) && c < |roots|
    ensures EdgeCounter(s.components[c], r) == |KindEdgesFrom(Ids(s.nodes), s.labels, edges, c, aux, r)|
  {
    NodeStatsBooks(s.nodes, s.labels, c, primary);
    hide NodeStats;
    hide EdgeStats;
    hide NodeBooks;
    hide EdgeBooks;
    hide Labelled;
    hide UF.RootsFollowEdges;
    EdgeCounterMeaning(NodeStats(s.nodes, s.labels, c, primary), Ids(s.nodes), s.labels, edges, c, aux, r);
    TableIdsDistinct(s, p, roots, primary, infos, edges, aux);
    CountedKinds(Ids(s.nodes), s.labels, edges, c, aux, r);
  }

  lemma PrimaryFacts(s: Summary, p: seq<nat>, roots: seq<nat>, primary: Option<U32>, infos: seq<Node>,
                     edges: seq<RefEdge>, aux: map<U32, AuxSemantic>, c: nat)
    requires Computed(s, p, roots, primary, infos, edges, aux) && c < |roots|
    ensures (exists i :: 0 <= i < |s.labels| && s.labels[i] == c && primary == Some(s.nodes[i].id))
            <==> primary.Some? && primary.value != 0 && c == 0
  {
    SceneNodesProperties(primary, infos, edges);
    if s.nodes != [] {
      LabelsAreRoots(p, s.labels, roots, 0, 0);
    }
    assert primary.Some? && primary.value != 0 ==> primary == Some(s.nodes[0].id);
  }

  lemma RelationFacts(s: Summary, p: seq<nat>, roots: seq<nat>, primary: Option<U32>, infos: seq<Node>,
                      edges: seq<RefEdge>, aux: map<U32, AuxSemantic>, i: nat, j: nat)
    requires Computed(s, p, roots, primary, infos, edges, aux) && i < |s.labels| && j < |s.labels|
    ensures s.labels[i] == s.labels[j] <==> Related(Ids(s.nodes), edges, Ids(s.nodes)[i], Ids(s.nodes)[j])
    ensures s.labels[i] < |s.components|
  {
    TableIdsDistinct(s, p, roots, primary, infos, edges, aux);
    LabelsAreRoots(p, s.labels, roots, i, j);
    UF.RootsAreComponents(p, IndexEdges(Ids(s.nodes), edges), i, j);
    ConnectedIsRelated(Ids(s.nodes), edges, i, j);
    hide Related;
    hide UF.Connected;
    hide UF.RootsFollowEdges;
  }

  lemma SizeFacts(s: Summary, p: seq<nat>, roots: seq<nat>, primary: Option<U32>, infos: seq<Node>,
                  edges: seq<RefEdge>, aux: map<U32, AuxSemantic>)
    requires Computed(s, p, roots, primary, infos, edges, aux)
    ensures s.nodes == SceneNodes(primary, infos, edges) && |s.labels| == |s.nodes| && |s.components| == |roots|
  {
  }

  lemma SummaryDescribes(s: Summary, p: seq<nat>, roots: seq<nat>, primary: Option<U32>, infos: seq<Node>,
                         edges: seq<RefEdge>, aux: map<U32, AuxSemantic>)
    requires Computed(s, p, roots, primary, infos, edges, aux)
    ensures Describes(s, primary, infos, edges, aux)
  {
    hide *;
    SceneIsSighted(primary, infos, edges);
    SizeFacts(s, p, roots, primary, infos, edges, aux);
    forall i, j | 0 <= i < |s.labels| && 0 <= j < |s.labels|
      ensures s.labels[i] == s.labels[j] <==> Related(Ids(s.nodes), edges, Ids(s.nodes)[i], Ids(s.nodes)[j])
      ensures s.labels[i] < |s.components|
    {
      RelationFacts(s, p, roots, primary, infos, edges, aux, i, j);
    }
    forall c, k | 0 <= c < |s.components| && k != Unknown
      ensures SemanticCounter(s.components[c], k) == |SemanticNodes(s.nodes, s.labels, c, k)|
    {
      SemanticFacts(s, p, roots, primary, infos, edges, aux, c, k);
    }
    forall c, r | 0 <= c < |s.components|
      ensures EdgeCounter(s.components[c], r) == |KindEdgesFrom(Ids(s.nodes), s.labels, edges, c, aux, r)|
    {
      EdgeClassFacts(s, p, roots, primary, infos, edges, aux, c, r);
    }
    forall c | 0 <= c < |roots|
      ensures s.components[c].nodes == |NodesOf(s.labels, c)| > 0
      ensures s.components[c].edges == |EdgesFrom(Ids(s.nodes), s.labels, edges, c)|
      ensures NodeBooks(s.components[c]) && EdgeBooks(s.components[c])
      ensures s.components[c].containsPrimary <==> primary.Some? && primary.value != 0 && c == 0
    {
      ComponentFacts(s, p, roots, primary, infos, edges, aux, c);
      PrimaryFacts(s, p, roots, primary, infos, edges, aux, c);
    }
    DescribesIntro(s, primary, infos, edges, aux);
  }

  lemma DescribesIntro(s: Summary, primary: Option<U32>, infos: seq<Node>, edges: seq<RefEdge>,
                       aux: map<U32, AuxSemantic>)
    requires s.nodes == SceneNodes(primary, infos, edges) && TableOf(s.nodes, Sightings(primary, infos, edges))
    requires |s.labels| == |s.nodes| && forall i :: 0 <= i < |s.labels| ==> s.labels[i] < |s.components|
    requires forall i, j :: 0 <= i < |s.labels| && 0 <= j < |s.labels| ==>
               (s.labels[i] == s.labels[j] <==> Related(Ids(s.nodes), edges, Ids(s.nodes)[i], Ids(s.nodes)[j]))
    requires forall c :: 0 <= c < |s.components| ==>
               && s.components[c].nodes == |NodesOf(s.labels, c)| > 0
               && s.components[c].edges == |EdgesFrom(Ids(s.nodes), s.labels, edges, c)|
               && NodeBooks(s.components[c]) && EdgeBooks(s.components[c])
               && (s.components[c].containsPrimary <==> primary.Some? && primary.value != 0 && c == 0)
    requires forall c, k :: 0 <= c < |s.components| && k != Unknown ==>
               SemanticCounter(s.components[c], k) == |SemanticNodes(s.nodes, s.labels, c, k)|
    requires forall c, r :: 0 <= c < |s.components| ==>
               EdgeCounter(s.components[c], r) == |KindEdgesFrom(Ids(s.nodes), s.labels, edges, c, aux, r)|
    ensures Describes(s, primary, infos, edges, aux)
  {
    hide TableOf;
    hide SceneNodes;
    hide Related;
    hide SemanticCounter;
    hide EdgeCounter;
    hide NodeBooks;
    hide EdgeBooks;
    hide NodesOf;
    hide EdgesFrom;
    hide KindEdgesFrom;
    hide SemanticNodes;
    hide Sightings;
  }

  ghost function TotalNodes(components: seq<ComponentStats>): nat {
    if components == [] then 0
    else TotalNodes(components[..|components| - 1]) + components[|components| - 1].nodes
  }

  ghost function TotalEdges(components: seq<ComponentStats>): nat {
    if components == [] then 0
    else TotalEdges(components[..|components| - 1]) + components[|components| - 1].edges
  }

  lemma {:induction false} TotalsAreSums(components: seq<ComponentStats>, ids: seq<U32>, labels: seq<nat>,
                                         edges: seq<RefEdge>)
    requires |ids| == |labels|
    requires forall c :: 0 <= c < |components| ==>
               components[c].nodes == |NodesOf(labels, c)| && components[c].edges == |EdgesOf(ids, labels, edges, c)|
    ensures TotalNodes(components) == SumNodes(labels, |components|)
    ensures TotalEdges(components) == SumEdges(ids, labels, edges, |components|)
  {
    hide NodesOf;
    hide EdgesOf;
    if components != [] {
      TotalsAreSums(components[..|components| - 1], ids, labels, edges);
    }
  }

  /** The totals of the summary: every node in one component, every edge with a known source too. */
  lemma SummaryAddsUp(s: Summary, primary: Option<U32>, infos: seq<Node>, edges: seq<RefEdge>,
                      aux: map<U32, AuxSemantic>)
    requires Describes(s, primary, infos, edges, aux)
    ensures TotalNodes(s.components) == |s.nodes|
    ensures TotalEdges(s.components) == |set k: nat | k < |edges| && edges[k].fromItem in Ids(s.nodes)|
  {
    SceneNodesProperties(primary, infos, edges);
    forall c | 0 <= c < |s.components|
      ensures s.components[c].nodes == |NodesOf(s.labels, c)|
      ensures s.components[c].edges == |EdgesOf(Ids(s.nodes), s.labels, edges, c)|
    {
      CountedEdges(Ids(s.nodes), s.labels, edges, c);
    }
    NodeCountsAddUp(s.labels, |s.components|);
    EdgeCountsAddUp(Ids(s.nodes), s.labels, edges, |s.components|);
    TotalsAreSums(s.components, Ids(s.nodes), s.labels, edges);
  }

  method SummarizeScene(primary: Option<U32>, infos: seq<Node>, edges: seq<RefEdge>, aux: map<U32, AuxSemantic>)
    returns (s: Summary)
    ensures Describes(s, primary, infos, edges, aux)
  {
    var table := new Table();
    table.PushAll(primary, infos, edges);
    UnionEdges(table, edges);
    s := SummarizeTable(table, primary, edges, aux, infos);
  }

  method SummarizeTable(table: Table, primary: Option<U32>, edges: seq<RefEdge>, aux: map<U32, AuxSemantic>,
                        ghost infos: seq<Node>) returns (s: Summary)
    requires table.ids.Length == table.semantics.Length == table.parent.Length == SCENE_CAPACITY
    requires table.count <= SCENE_CAPACITY
    requires table.Nodes() == SceneNodes(primary, infos, edges)
    requires UF.RootsFollowEdges(table.parent[..table.count], IndexEdges(Ids(table.Nodes()), edges))
    modifies table.parent
    ensures Describes(s, primary, infos, edges, aux)
  {
    var n, nodes := table.count, table.Nodes();
    ghost var p := table.parent[..n];
    var labels, roots := new nat[SCENE_CAPACITY](_ => 0), new nat[SCENE_CAPACITY](_ => 0);
    var stats := new ComponentStats[SCENE_CAPACITY](_ => NO_STATS);
    var count := LabelNodes(table.parent, nodes, primary, labels, roots, stats);
    assert table.ids[..n] == Ids(nodes);
    CountEdges(table, labels, roots, count, stats, edges, aux, p);
    s := Summary(nodes, labels[..n], stats[..count]);
    SummaryDescribes(s, p, roots[..count], primary, infos, edges, aux);
  }
}
