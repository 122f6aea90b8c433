/**
 * Union-find over a parent array in which no parent has a larger index than its child, with path
 * compression; and the connected components that it computes.
 */
module UnionFind {

  /** No parent lies to the right of its child. */
  ghost predicate ValidParents(p: seq<nat>) {
    forall i :: 0 <= i < |p| ==> p[i] <= i
  }

  /** The representative of node `i`. */
  ghost function Root(p: seq<nat>, i: nat): (r: nat)
    requires ValidParents(p) && i < |p|
    ensures r <= i && p[r] == r
  {
    if p[i] == i then i else Root(p, p[i])
  }

  /** Pointing a node straight at its root changes no root. */
  lemma {:induction false} CompressionKeepsRoots(p: seq<nat>, i: nat, j: nat)
    requires ValidParents(p) && i < |p| && j < |p|
    ensures ValidParents(p[i := Root(p, i)])
    ensures Root(p[i := Root(p, i)], j) == Root(p, j)
    decreases j
  {
    if j != i && p[j] != j {
      CompressionKeepsRoots(p, i, p[j]);
    }
  }

  /** Hanging root `b` under the smaller root `a` merges exactly their two classes. */
  lemma {:induction false} LinkMergesClasses(p: seq<nat>, a: nat, b: nat, j: nat)
    requires ValidParents(p) && a < b < |p| && j < |p|
    requires p[a] == a && p[b] == b
    ensures ValidParents(p[b := a])
    ensures Root(p[b := a], j) == if Root(p, j) == b then a else Root(p, j)
    decreases j
  {
    if j != b && p[j] != j {
      LinkMergesClasses(p, a, b, p[j]);
    }
  }

  /** The two arrays give every one of the first `n` nodes the same root. */
  ghost predicate SameRoots(p: seq<nat>, q: seq<nat>) {
    && |p| == |q| && ValidParents(p) && ValidParents(q)
    && forall j :: 0 <= j < |p| ==> Root(p, j) == Root(q, j)
  }

  /** Finds the root of `idx` among the first `n` nodes and compresses the path to it. */
  method FindRoot(parent: array<nat>, n: nat, idx: nat) returns (root: nat)
    requires n <= parent.Length && ValidParents(parent[..n])
    modifies parent
    ensures SameRoots(old(parent[..n]), parent[..n]) && parent[n..] == old(parent[n..])
    ensures root == if idx < n then Root(old(parent[..n]), idx) else idx
  {
    ghost var p := parent[..n];
    root := idx;
    while root < n && parent[root] != root
      invariant idx < n ==> root < n && Root(p, root) == Root(p, idx)
      invariant idx >= n ==> root == idx
      decreases root
    {
      root := parent[root];
    }
    var i: nat := idx;
    while i < n && parent[i] != i
      invariant parent[n..] == old(parent[n..])
      invariant SameRoots(p, parent[..n])
      invariant idx < n ==> i < n && Root(p, i) == root
      invariant idx >= n ==> i >= n
      decreases i
    {
      var next := parent[i];
      ghost var before := parent[..n];
      assert Root(before, i) == Root(before, next);
      forall j | 0 <= j < n
        ensures ValidParents(before[i := root]) && Root(before[i := root], j) == Root(p, j)
      {
        CompressionKeepsRoots(before, i, j);
      }
      parent[i] := root;
      assert parent[..n] == before[i := root];
      i := next;
    }
  }

  /** The root that node `j` gets when the classes of `a` and `b` are merged. */
  ghost function MergedRoot(p: seq<nat>, a: nat, b: nat, j: nat): nat
    requires ValidParents(p) && a < |p| && b < |p| && j < |p|
  {
    var (ra, rb) := (Root(p, a), Root(p, b));
    if Root(p, j) == ra || Root(p, j) == rb then (if ra < rb then ra else rb) else Root(p, j)
  }

  method Union(parent: array<nat>, n: nat, a: nat, b: nat)
    requires n <= parent.Length && ValidParents(parent[..n])
    requires a < n && b < n
    modifies parent
    ensures ValidParents(parent[..n]) && parent[n..] == old(parent[n..])
    ensures forall j :: 0 <= j < n ==> Root(parent[..n], j) == MergedRoot(old(parent[..n]), a, b, j)
  {
    ghost var p := parent[..n];
    var rootA := FindRoot(parent, n, a);
    var rootB := FindRoot(parent, n, b);
    ghost var q := parent[..n];
    assert SameRoots(p, q);
    if rootA == rootB || rootA >= n || rootB >= n {
      return;
    }
    assert q[rootA] == rootA && q[rootB] == rootB by {
      assert Root(q, a) == rootA && Root(q, b) == rootB;
    }
    var low, high := if rootA < rootB then rootA else rootB, if rootA < rootB then rootB else rootA;
    forall j | 0 <= j < n
      ensures ValidParents(q[high := low]) && Root(q[high := low], j) == MergedRoot(p, a, b, j)
    {
      LinkMergesClasses(q, low, high, j);
    }
    parent[high] := low;
    assert parent[..n] == q[high := low];
  }

  // ----- connectivity ---------------------------------------------------------------------------

  type Edge = (nat, nat)

  ghost predicate Adjacent(edges: seq<Edge>, i: nat, j: nat) {
    (i, j) in edges || (j, i) in edges
  }

  /** Consecutive nodes of `walk` are joined by an edge. */
  ghost predicate Walk(edges: seq<Edge>, walk: seq<nat>, i: nat, j: nat) {
    && walk != [] && walk[0] == i && walk[|walk| - 1] == j
    && forall k :: 0 <= k < |walk| - 1 ==> Adjacent(edges, walk[k], walk[k + 1])
  }

  ghost predicate Connected(edges: seq<Edge>, i: nat, j: nat) {
    exists walk :: Walk(edges, walk, i, j)
  }

  lemma ConnectedSelf(edges: seq<Edge>, i: nat)
    ensures Connected(edges, i, i)
  {
    assert Walk(edges, [i], i, i);
  }

  lemma ConnectedByEdge(edges: seq<Edge>, i: nat, j: nat)
    requires Adjacent(edges, i, j)
    ensures Connected(edges, i, j)
  {
    assert Walk(edges, [i, j], i, j);
  }

  lemma ConnectedTransitive(edges: seq<Edge>, i: nat, j: nat, k: nat)
    requires Connected(edges, i, j) && Connected(edges, j, k)
    ensures Connected(edges, i, k)
  {
    var v :| Walk(edges, v, i, j);
    var w :| Walk(edges, w, j, k);
    var both := v + w[1..];
    forall t | 0 <= t < |both| - 1
      ensures Adjacent(edges, both[t], both[t + 1])
    {
      if t < |v| - 1 {
        assert Adjacent(edges, v[t], v[t + 1]);
      } else {
        assert Adjacent(edges, w[t - (|v| - 1)], w[t - (|v| - 1) + 1]);
      }
    }
    assert Walk(edges, both, i, k);
  }

  lemma ConnectedSymmetric(edges: seq<Edge>, i: nat, j: nat)
    requires Connected(edges, i, j)
    ensures Connected(edges, j, i)
  {
    var w :| Walk(edges, w, i, j);
    var back := seq(|w|, t requires 0 <= t < |w| => w[|w| - 1 - t]);
    forall t | 0 <= t < |back| - 1
      ensures Adjacent(edges, back[t], back[t + 1])
    {
      assert Adjacent(edges, w[|w| - 2 - t], w[|w| - 2 - t + 1]);
    }
    assert Walk(edges, back, j, i);
  }

  lemma ConnectedMonotone(edges: seq<Edge>, more: seq<Edge>, i: nat, j: nat)
    requires edges <= more && Connected(edges, i, j)
    ensures Connected(more, i, j)
  {
    var w :| Walk(edges, w, i, j);
    forall k | 0 <= k < |w| - 1
      ensures Adjacent(more, w[k], w[k + 1])
    {
      assert Adjacent(edges, w[k], w[k + 1]);
    }
    assert Walk(more, w, i, j);
  }

  // ----- roots are components --------------------------------------------------------------------

  ghost predicate EdgesWithin(edges: seq<Edge>, n: nat) {
    forall e :: e in edges ==> e.0 < n && e.1 < n
  }

  /** What every union keeps: nodes are connected to their root, and edges stay inside a class. */
  ghost predicate RootsFollowEdges(p: seq<nat>, edges: seq<Edge>) {
    && ValidParents(p) && EdgesWithin(edges, |p|)
    && (forall i :: 0 <= i < |p| ==> Connected(edges, i, Root(p, i)))
    && (forall e :: e in edges ==> Root(p, e.0) == Root(p, e.1))
  }

  lemma {:induction false} WalkStaysInClass(p: seq<nat>, edges: seq<Edge>, walk: seq<nat>, i: nat, j: nat)
    requires RootsFollowEdges(p, edges) && i < |p| && Walk(edges, walk, i, j)
    ensures j < |p| && Root(p, i) == Root(p, j)
    decreases |walk|
  {
    if |walk| > 1 {
      assert Adjacent(edges, walk[0], walk[1]);
      var rest := walk[1..];
      forall k | 0 <= k < |rest| - 1
        ensures Adjacent(edges, rest[k], rest[k + 1])
      {
        assert Adjacent(edges, walk[k + 1], walk[k + 1 + 1]);
      }
      WalkStaysInClass(p, edges, rest, walk[1], j);
    }
  }

  /** Two nodes have the same root exactly when the edges connect them. */
  lemma RootsAreComponents(p: seq<nat>, edges: seq<Edge>, i: nat, j: nat)
    requires RootsFollowEdges(p, edges) && i < |p| && j < |p|
    ensures Root(p, i) == Root(p, j) <==> Connected(edges, i, j)
  {
    if Connected(edges, i, j) {
      var w :| Walk(edges, w, i, j);
      WalkStaysInClass(p, edges, w, i, j);
    }
    if Root(p, i) == Root(p, j) {
      ConnectedSymmetric(edges, j, Root(p, j));
      ConnectedTransitive(edges, i, Root(p, i), j);
    }
  }

  /** The root is the smallest node of its component. */
  lemma RootIsMinimum(p: seq<nat>, edges: seq<Edge>, i: nat, j: nat)
    requires RootsFollowEdges(p, edges) && i < |p| && j < |p| && Connected(edges, i, j)
    ensures Root(p, i) <= j && Connected(edges, i, Root(p, i))
  {
    RootsAreComponents(p, edges, i, j);
  }

  /** A union for edge (a, b) re-establishes the correspondence for the edges with (a, b) added. */
  lemma UnionFollowsEdge(p: seq<nat>, q: seq<nat>, edges: seq<Edge>, a: nat, b: nat)
    requires RootsFollowEdges(p, edges) && a < |p| && b < |p| && |q| == |p| && ValidParents(q)
    requires forall j :: 0 <= j < |p| ==> Root(q, j) == MergedRoot(p, a, b, j)
    ensures RootsFollowEdges(q, edges + [(a, b)])
  {
    var more := edges + [(a, b)];
    forall i | 0 <= i < |q|
      ensures Connected(more, i, Root(q, i))
    {
      ConnectedMonotone(edges, more, i, Root(p, i));
      if Root(q, i) != Root(p, i) {
        ConnectedMonotone(edges, more, a, Root(p, a));
        ConnectedMonotone(edges, more, b, Root(p, b));
        ConnectedSymmetric(more, a, Root(p, a));
        ConnectedSymmetric(more, b, Root(p, b));
        ConnectedByEdge(more, a, b);
        ConnectedByEdge(more, b, a);
        var (near, far) := if Root(p, i) == Root(p, a) then (a, b) else (b, a);
        ConnectedTransitive(more, i, Root(p, near), near);
        ConnectedTransitive(more, i, near, far);
        ConnectedTransitive(more, i, far, Root(p, far));
      }
    }
  }
}
