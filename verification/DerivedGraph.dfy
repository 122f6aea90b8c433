/**
 * The depth-first validation of derived-image references: a search with a path of 64 items and a
 * post-order list of 256 visited items, which must tell whether `dimg` references form a cycle.
 */
module DerivedGraph {
  import opened Bytes
  import opened ItemData
  import opened SceneTable

  const MAX_DERIVED_PATH := 64
  const MAX_ITEM_INFOS := 256

  /** The references, and the ids of the listed items. */
  datatype Graph = Graph(edges: seq<RefEdge>, known: seq<U32>)

  predicate ValidGraph(g: Graph) { |g.known| <= MAX_ITEM_INFOS }

  predicate IsDimg(e: RefEdge, u: U32) { e.refType == Dimg() && e.fromItem == u }

  /** A derivation step: a `dimg` reference to a listed item. */
  ghost predicate Arc(g: Graph, u: U32, v: U32) {
    v in g.known && exists e :: e in g.edges && IsDimg(e, u) && e.toItem == v
  }

  function NextItem(path: seq<U32>, id: U32, i: nat): U32
    requires i < |path|
  {
    if i + 1 < |path| then path[i + 1] else id
  }

  /** A chain of derivation steps along `path` and on to `id`. */
  ghost predicate ArcChain(g: Graph, path: seq<U32>, id: U32) {
    forall i :: 0 <= i < |path| ==> Arc(g, path[i], NextItem(path, id, i))
  }

  /** From `root`, derivation leads back to an item it has passed. */
  ghost predicate CycleReachable(g: Graph, root: U32) {
    exists path, id :: CycleWitness(g, root, path, id)
  }

  ghost predicate CycleWitness(g: Graph, root: U32, path: seq<U32>, id: U32) {
    path != [] && path[0] == root && ArcChain(g, path, id) && id in path
  }

  /** From `root` there is a chain of `n` derivation steps. */
  ghost predicate DepthReachable(g: Graph, root: U32, n: nat) {
    n == 0 || exists path, id :: DepthWitness(g, root, n, path, id)
  }

  ghost predicate DepthWitness(g: Graph, root: U32, n: nat, path: seq<U32>, id: U32) {
    |path| == n && path != [] && path[0] == root && ArcChain(g, path, id)
  }

  /** Derivation steps lead from `root` to `u`. */
  ghost predicate Reachable(g: Graph, root: U32, u: U32) {
    u == root || exists path :: ReachWitness(g, root, path, u)
  }

  ghost predicate ReachWitness(g: Graph, root: U32, path: seq<U32>, u: U32) {
    path != [] && path[0] == root && ArcChain(g, path, u)
  }

  /** Every derivation step from an item of the list leads to an earlier item of the list. */
  ghost predicate Closed(g: Graph, visited: seq<U32>) {
    forall k, v :: 0 <= k < |visited| && Arc(g, visited[k], v) ==> v in visited[..k]
  }

  ghost predicate Unique(s: seq<U32>) {
    forall i, j :: 0 <= i < j < |s| ==> s[i] != s[j]
  }

  /** The number of `dimg` references from `u`, among the first `n` references, that lead nowhere. */
  ghost function Dangling(g: Graph, u: U32, n: nat): nat
    requires n <= |g.edges|
  {
    if n == 0 then 0
    else Dangling(g, u, n - 1) + if IsDimg(g.edges[n - 1], u) && g.edges[n - 1].toItem !in g.known then 1 else 0
  }

  ghost function DanglingFrom(g: Graph, items: seq<U32>): nat {
    if items == [] then 0 else DanglingFrom(g, items[..|items| - 1]) + Dangling(g, items[|items| - 1], |g.edges|)
  }

  /** One of the first `n` references is a `dimg` reference from `u` to itself. */
  ghost predicate RefersToItself(g: Graph, u: U32, n: nat)
    requires n <= |g.edges|
  {
    exists k :: 0 <= k < n && IsDimg(g.edges[k], u) && g.edges[k].toItem == u
  }

  /** Some item of the list refers to itself. */
  ghost predicate SelfAmong(g: Graph, items: seq<U32>) {
    exists i :: 0 <= i < |items| && RefersToItself(g, items[i], |g.edges|)
  }

  /** From `root`, at most `n` derivation steps lead to `u`. */
  ghost predicate Within(g: Graph, root: U32, u: U32, n: nat) {
    u == root || exists path :: ReachWitness(g, root, path, u) && |path| <= n
  }

  // ----- the state of the search ---------------------------------------------------------------

  /** A read-only picture of the search. */
  datatype Snapshot = Snapshot(path: seq<U32>, visited: seq<U32>, cycle: bool, selfReference: bool, depthExceeded: bool,
                               maxDepth: nat)

  class Validation {
    var cycle: bool
    var selfReference: bool
    var depthExceeded: bool
    var missingSources: nat
    var maxDepth: nat
    const path: array<U32>
    var pathCount: nat
    const visited: array<U32>
    var visitedCount: nat

    ghost predicate Valid()
      reads this
    {
      && path.Length == MAX_DERIVED_PATH && visited.Length == MAX_ITEM_INFOS && path != visited
      && pathCount <= path.Length && visitedCount <= visited.Length
    }

    ghost function Path(): seq<U32>
      requires Valid()
      reads this, path
    {
      path[..pathCount]
    }

    ghost function Visited(): seq<U32>
      requires Valid()
      reads this, visited
    {
      visited[..visitedCount]
    }

    ghost function Picture(): Snapshot
      requires Valid()
      reads this, path, visited
    {
      Snapshot(Path(), Visited(), cycle, selfReference, depthExceeded, maxDepth)
    }

    ghost function Counted(): Tally
      reads this
    {
      Tally(missingSources, selfReference)
    }

    ghost predicate Stopped()
      reads this
    {
      cycle || depthExceeded
    }

    constructor ()
      ensures Valid() && Path() == [] && Visited() == []
      ensures !cycle && !selfReference && !depthExceeded && missingSources == 0 && maxDepth == 0
      ensures fresh(path) && fresh(visited)
    {
      path := new U32[MAX_DERIVED_PATH](_ => 0);
      visited := new U32[MAX_ITEM_INFOS](_ => 0);
      cycle, selfReference, depthExceeded, missingSources, maxDepth, pathCount, visitedCount := false, false, false, 0,
          0, 0, 0;
    }

    method PushPath(id: U32)
      requires Valid() && pathCount < MAX_DERIVED_PATH
      modifies this`pathCount, this`maxDepth, path
      ensures Valid() && pathCount == old(pathCount) + 1
      ensures Picture() == old(Picture()).(path := old(Path()) + [id], maxDepth := Max(old(maxDepth), |old(Path())|))
    {
      path[pathCount] := id;
      pathCount := pathCount + 1;
      maxDepth := Max(maxDepth, pathCount - 1);
      assert Path() == old(Path()) + [id];
    }

    method PopPath(id: U32, ghost rest: seq<U32>)
      requires Valid() && Path() == rest + [id]
      modifies this`pathCount, this`visitedCount, visited
      ensures Valid()
      ensures Picture() == old(Picture()).(
                path := rest,
                visited := if |old(Visited())| < MAX_ITEM_INFOS then old(Visited()) + [id] else old(Visited()))
    {
      pathCount := pathCount - 1;
      assert Path() == old(Path())[..pathCount];
      if visitedCount < MAX_ITEM_INFOS {
        visited[visitedCount] := id;
        visitedCount := visitedCount + 1;
        assert Visited() == old(Visited()) + [id];
      }
    }
  }

  method ContainsItemId(ids: array<U32>, count: nat, id: U32) returns (found: bool)
    requires count <= ids.Length
    ensures found <==> id in ids[..count]
  {
    var i := 0;
    while i < count
      invariant 0 <= i <= count && id !in ids[..i]
    {
      if ids[i] == id {
        return true;
      }
      i := i + 1;
    }
    found := false;
  }

  method FindItemInfo(known: seq<U32>, id: U32) returns (found: bool)
    ensures found <==> id in known
  {
    var i := 0;
    while i < |known|
      invariant 0 <= i <= |known| && id !in known[..i]
    {
      if known[i] == id {
        return true;
      }
      i := i + 1;
    }
    found := false;
  }

  // ----- counting ------------------------------------------------------------------------------

  lemma {:induction false} UniqueWithin(s: seq<U32>, known: seq<U32>)
    requires Unique(s) && forall u :: u in s ==> u in known
    ensures |s| <= |known|
    decreases |s|
  {
    if s != [] {
      var last := s[|s| - 1];
      var init := s[..|s| - 1];
      assert last in known;
      var j :| 0 <= j < |known| && known[j] == last;
      var rest := known[..j] + known[j + 1..];
      forall u | u in init ensures u in rest {
        var m :| 0 <= m < |init| && init[m] == u;
        assert s[m] != s[|s| - 1];
        assert s[m] in known;
        var t :| 0 <= t < |known| && known[t] == u;
        assert rest[if t < j then t else t - 1] == u;
      }
      UniqueWithin(init, rest);
    }
  }

  lemma DanglingFromPush(g: Graph, items: seq<U32>, u: U32)
    ensures DanglingFrom(g, items + [u]) == DanglingFrom(g, items) + Dangling(g, u, |g.edges|)
  {
    assert (items + [u])[..|items|] == items;
  }

  lemma {:induction false} DanglingFromJoin(g: Graph, a: seq<U32>, b: seq<U32>)
    ensures DanglingFrom(g, a + b) == DanglingFrom(g, a) + DanglingFrom(g, b)
  {
    if b == [] {
      assert a + b == a;
    } else {
      var init, last := b[..|b| - 1], b[|b| - 1];
      assert b == init + [last] && (a + init) + [last] == a + b;
      hide DanglingFrom;
      hide Dangling;
      DanglingFromJoin(g, a, init);
      DanglingFromPush(g, init, last);
      DanglingFromPush(g, a + init, last);
    }
  }

  // ----- the invariant of the search -----------------------------------------------------------

  /** The depth is that of the deepest item entered so far. */
  ghost predicate DepthInvariant(g: Graph, root: U32, s: Snapshot) {
    && (forall u :: u in s.path || u in s.visited ==> Within(g, root, u, s.maxDepth))
    && (s.depthExceeded ==> s.maxDepth == MAX_DERIVED_PATH - 1)
    && |s.path| <= s.maxDepth + 1 <= MAX_DERIVED_PATH
  }

  /** What holds between any two steps of the search from `root`. */
  ghost predicate SearchInvariant(g: Graph, root: U32, s: Snapshot) {
    && Unique(s.path) && Unique(s.visited)
    && (forall u :: u in s.path ==> u in g.known && u !in s.visited)
    && (forall u :: u in s.visited ==> u in g.known && Reachable(g, root, u))
    && (s.path != [] ==> s.path[0] == root)
    && (s.cycle || s.selfReference ==> CycleReachable(g, root))
    && (s.depthExceeded ==> DepthReachable(g, root, MAX_DERIVED_PATH))
    && (!s.cycle && !s.depthExceeded ==> Closed(g, s.visited))
    && DepthReachable(g, root, s.maxDepth) && DepthInvariant(g, root, s)
  }

  lemma DepthFromChain(g: Graph, root: U32, path: seq<U32>, id: U32)
    requires ArcChain(g, path, id) && (path != [] ==> path[0] == root)
    ensures DepthReachable(g, root, |path|)
  {
    if path != [] {
      assert DepthWitness(g, root, |path|, path, id);
    }
  }

  lemma WithinMore(g: Graph, root: U32, u: U32, m: nat, n: nat)
    requires Within(g, root, u, m) && m <= n
    ensures Within(g, root, u, n)
  {
    hide ReachWitness;
  }

  /** The item that the path leads to is as near as the path is long. */
  lemma EndIsWithin(g: Graph, root: U32, path: seq<U32>, id: U32, n: nat)
    requires ArcChain(g, path, id) && (path != [] ==> path[0] == root) && (path == [] ==> id == root) && |path| <= n
    ensures Within(g, root, id, n)
  {
    if path != [] {
      assert ReachWitness(g, root, path, id);
    }
  }

  /** Going down to `id` keeps the invariant. */
  lemma EnterKeepsInvariant(g: Graph, root: U32, s: Snapshot, id: U32)
    requires SearchInvariant(g, root, s) && ArcChain(g, s.path, id) && id in g.known && |s.path| < MAX_DERIVED_PATH
    requires id !in s.path && id !in s.visited && (s.path == [] ==> id == root) && !s.depthExceeded
    ensures SearchInvariant(g, root, s.(path := s.path + [id], maxDepth := Max(s.maxDepth, |s.path|)))
  {
    DepthFromChain(g, root, s.path, id);
    EnterKeepsDepth(g, root, s, id);
    UniquePush(s.path, id);
    assert (s.path + [id])[0] == root;
    hide Unique;
    hide DepthInvariant;
    hide DepthReachable;
    hide CycleReachable;
    hide Reachable;
    hide Closed;
    hide ArcChain;
  }

  lemma UniquePush(path: seq<U32>, id: U32)
    requires Unique(path) && id !in path
    ensures Unique(path + [id])
  {
  }

  lemma EnterKeepsDepth(g: Graph, root: U32, s: Snapshot, id: U32)
    requires DepthInvariant(g, root, s) && ArcChain(g, s.path, id) && |s.path| < MAX_DERIVED_PATH
    requires (s.path != [] ==> s.path[0] == root) && (s.path == [] ==> id == root) && !s.depthExceeded
    ensures DepthInvariant(g, root, s.(path := s.path + [id], maxDepth := Max(s.maxDepth, |s.path|)))
  {
    var depth := Max(s.maxDepth, |s.path|);
    EndIsWithin(g, root, s.path, id, depth);
    hide ArcChain;
    forall u | u in s.path + [id] || u in s.visited ensures Within(g, root, u, depth) {
      if u != id {
        WithinMore(g, root, u, s.maxDepth, depth);
      }
    }
    hide Within;
  }

  /** All steps from `id` lead to visited items. */
  ghost predicate Exhausted(g: Graph, id: U32, visited: seq<U32>, n: nat)
    requires n <= |g.edges|
  {
    forall k :: 0 <= k < n && IsDimg(g.edges[k], id) && g.edges[k].toItem in g.known ==> g.edges[k].toItem in visited
  }

  /** Coming back up from `id` keeps the invariant, once all its steps are exhausted. */
  lemma LeaveKeepsInvariant(g: Graph, root: U32, s: Snapshot, path: seq<U32>, id: U32)
    requires ValidGraph(g) && SearchInvariant(g, root, s) && s.path == path + [id]
    requires ArcChain(g, path, id)
    requires !s.cycle && !s.depthExceeded ==> Exhausted(g, id, s.visited, |g.edges|)
    ensures SearchInvariant(g, root, s.(path := path, visited := s.visited + [id]))
    ensures |s.visited| < MAX_ITEM_INFOS
  {
    var after := s.visited + [id];
    assert id in s.path;
    UniqueWithin(after, g.known);
    forall u | u in path ensures u in g.known && u !in after {
      assert u in s.path;
      var m :| 0 <= m < |path| && path[m] == u;
      assert s.path[m] != s.path[|path|];
    }
    assert Unique(path) by {
      forall i, j | 0 <= i < j < |path| ensures path[i] != path[j] {
        assert s.path[i] != s.path[j];
      }
    }
    assert path != [] ==> s.path[0] == path[0];
    assert Reachable(g, root, id) by {
      assert path != [] ==> ReachWitness(g, root, path, id);
    }
    if !s.cycle && !s.depthExceeded {
      forall k, v | 0 <= k < |after| && Arc(g, after[k], v)
        ensures v in after[..k]
      {
        if k < |s.visited| {
          assert after[..k] == s.visited[..k];
        } else {
          assert after[..k] == s.visited;
        }
      }
    }
  }

  lemma ArcChainExtends(g: Graph, path: seq<U32>, id: U32, next: U32)
    requires ArcChain(g, path, id) && Arc(g, id, next)
    ensures ArcChain(g, path + [id], next)
  {
    var longer := path + [id];
    forall i | 0 <= i < |longer|
      ensures Arc(g, longer[i], NextItem(longer, next, i))
    {
      if i < |path| {
        assert NextItem(longer, next, i) == NextItem(path, id, i);
      }
    }
  }

  /** A derivation step back onto the path is a cycle. */
  lemma CycleKeepsInvariant(g: Graph, root: U32, s: Snapshot, id: U32)
    requires SearchInvariant(g, root, s) && ArcChain(g, s.path, id) && id in s.path
    ensures SearchInvariant(g, root, s.(cycle := true))
  {
    assert CycleWitness(g, root, s.path, id);
  }

  /** So is a reference from an item to itself. */
  lemma SelfReferenceKeepsInvariant(g: Graph, root: U32, s: Snapshot, path: seq<U32>, id: U32)
    requires SearchInvariant(g, root, s) && s.path == path + [id] && ArcChain(g, path, id) && Arc(g, id, id)
    ensures SearchInvariant(g, root, s.(selfReference := true))
  {
    ArcChainExtends(g, path, id, id);
    assert CycleWitness(g, root, s.path, id);
  }

  /** Only the path can be exhausted: there is always room for one more listed item. */
  lemma FullPathKeepsInvariant(g: Graph, root: U32, s: Snapshot, id: U32)
    requires ValidGraph(g) && SearchInvariant(g, root, s) && ArcChain(g, s.path, id)
    requires id in g.known && id !in s.visited
    ensures |s.visited| < MAX_ITEM_INFOS
    ensures |s.path| == MAX_DERIVED_PATH ==> SearchInvariant(g, root, s.(depthExceeded := true))
  {
    DepthFromChain(g, root, s.path, id);
    UniqueWithin(s.visited + [id], g.known);
  }

  // ----- the search -----------------------------------------------------------------------------

  /** What has been counted, and whether an item was met that refers to itself. */
  datatype Tally = Tally(missing: nat, selfReference: bool)

  /** From `was` to `now`, exactly these items were accounted for. */
  ghost predicate Tallied(g: Graph, was: Tally, now: Tally, items: seq<U32>) {
    && now.missing == was.missing + DanglingFrom(g, items)
    && (now.selfReference <==> was.selfReference || SelfAmong(g, items))
  }

  /** These items, and the first `n` references of `id`. */
  ghost predicate TalliedTo(g: Graph, was: Tally, now: Tally, items: seq<U32>, id: U32, n: nat)
    requires n <= |g.edges|
  {
    && now.missing == was.missing + DanglingFrom(g, items) + Dangling(g, id, n)
    && (now.selfReference <==> was.selfReference || SelfAmong(g, items) || RefersToItself(g, id, n))
  }

  /** These items, and one reference of `id`. */
  ghost predicate TalliedOne(g: Graph, was: Tally, now: Tally, items: seq<U32>, id: U32, e: RefEdge) {
    && now.missing == was.missing + DanglingFrom(g, items) + (if e.toItem in g.known then 0 else 1)
    && (now.selfReference <==> was.selfReference || SelfAmong(g, items) || e.toItem == id)
  }

  lemma SelfAmongJoin(g: Graph, a: seq<U32>, b: seq<U32>)
    ensures SelfAmong(g, a + b) <==> SelfAmong(g, a) || SelfAmong(g, b)
  {
    hide RefersToItself;
    if SelfAmong(g, a) {
      var i :| 0 <= i < |a| && RefersToItself(g, a[i], |g.edges|);
      assert (a + b)[i] == a[i];
    }
    if SelfAmong(g, b) {
      var i :| 0 <= i < |b| && RefersToItself(g, b[i], |g.edges|);
      assert (a + b)[|a| + i] == b[i];
    }
  }

  lemma TallyNothing(g: Graph, t: Tally, id: U32)
    ensures Tallied(g, t, t, []) && TalliedTo(g, t, t, [], id, 0)
  {
  }

  /** One more reference of `id`, which may lead to further items. */
  lemma TallyMore(g: Graph, was: Tally, middle: Tally, now: Tally, items: seq<U32>, added: seq<U32>, id: U32, n: nat)
    requires n < |g.edges| && TalliedTo(g, was, middle, items, id, n)
    requires if IsDimg(g.edges[n], id) then TalliedOne(g, middle, now, added, id, g.edges[n])
             else now == middle && added == []
    ensures TalliedTo(g, was, now, items + added, id, n + 1)
  {
    hide DanglingFrom;
    hide SelfAmong;
    DanglingFromJoin(g, items, added);
    SelfAmongJoin(g, items, added);
    assert RefersToItself(g, id, n + 1)
           <==> RefersToItself(g, id, n) || (IsDimg(g.edges[n], id) && g.edges[n].toItem == id);
    if !IsDimg(g.edges[n], id) {
      assert items + added == items;
    }
    hide RefersToItself;
  }

  /** When all references of `id` are accounted for, so is the item. */
  lemma TallyItem(g: Graph, was: Tally, now: Tally, items: seq<U32>, id: U32)
    requires TalliedTo(g, was, now, items, id, |g.edges|)
    ensures Tallied(g, was, now, items + [id])
  {
    hide DanglingFrom;
    hide SelfAmong;
    DanglingFromPush(g, items, id);
    SelfAmongJoin(g, items, [id]);
    SelfOfOne(g, id);
  }

  lemma SelfOfOne(g: Graph, id: U32)
    ensures SelfAmong(g, [id]) <==> RefersToItself(g, id, |g.edges|)
  {
    hide RefersToItself;
    if RefersToItself(g, id, |g.edges|) {
      assert [id][0] == id;
    }
  }

  method ValidateNode(g: Graph, ghost root: U32, id: U32, out: Validation)
    requires ValidGraph(g) && out.Valid() && SearchInvariant(g, root, out.Picture())
    requires ArcChain(g, out.Path(), id) && id in g.known && (out.Path() == [] ==> id == root)
    modifies out, out.path, out.visited
    ensures out.Valid() && SearchInvariant(g, root, out.Picture())
    ensures out.Path() == old(out.Path()) && old(out.Visited()) <= out.Visited()
    ensures old(out.Stopped()) ==> out.Stopped()
    ensures !out.Stopped() ==> id in out.Visited()
    ensures Tallied(g, old(out.Counted()), out.Counted(), out.Visited()[|old(out.Visited())|..])
    decreases MAX_DERIVED_PATH - out.pathCount, 0, 1
  {
    hide SearchInvariant;
    hide ArcChain;
    if out.cycle || out.depthExceeded {
      return;
    }
    ghost var path, before := out.Path(), out.Visited();
    var onPath := ContainsItemId(out.path, out.pathCount, id);
    if onPath {
      CycleKeepsInvariant(g, root, out.Picture(), id);
      out.cycle := true;
      return;
    }
    var done := ContainsItemId(out.visited, out.visitedCount, id);
    if done {
      assert before[|before|..] == [];
      return;
    }
    FullPathKeepsInvariant(g, root, out.Picture(), id);
    if out.pathCount >= MAX_DERIVED_PATH || out.visitedCount >= MAX_ITEM_INFOS {
      out.depthExceeded := true;
      return;
    }
    Descend(g, root, id, out);
  }

  /** Enters a new item, follows its references, and moves it from the path to the visited list. */
  method Descend(g: Graph, ghost root: U32, id: U32, out: Validation)
    requires ValidGraph(g) && out.Valid() && SearchInvariant(g, root, out.Picture()) && !out.Stopped()
    requires ArcChain(g, out.Path(), id) && id in g.known && (out.Path() == [] ==> id == root)
    requires id !in out.Path() && id !in out.Visited() && out.pathCount < MAX_DERIVED_PATH
    modifies out, out.path, out.visited
    ensures out.Valid() && SearchInvariant(g, root, out.Picture())
    ensures out.Path() == old(out.Path()) && old(out.Visited()) <= out.Visited() && id in out.Visited()
    ensures Tallied(g, old(out.Counted()), out.Counted(), out.Visited()[|old(out.Visited())|..])
    decreases MAX_DERIVED_PATH - out.pathCount, 0, 0
  {
    ghost var path, before := out.Path(), out.Visited();
    EnterKeepsInvariant(g, root, out.Picture(), id);
    Enter(id, out);
    hide *;
    VisitAndLeave(g, root, id, out, path, before);
  }

  method VisitAndLeave(g: Graph, ghost root: U32, id: U32, out: Validation, ghost path: seq<U32>,
                       ghost before: seq<U32>)
    requires ValidGraph(g) && out.Valid() && SearchInvariant(g, root, out.Picture()) && !out.Stopped()
    requires ArcChain(g, path, id) && out.Path() == path + [id] && out.Visited() == before && id in g.known
    modifies out, out.path, out.visited
    ensures out.Valid() && SearchInvariant(g, root, out.Picture())
    ensures out.Path() == path && before <= out.Visited() && id in out.Visited()
    ensures Tallied(g, old(out.Counted()), out.Counted(), out.Visited()[|before|..])
    decreases MAX_DERIVED_PATH - out.pathCount, 3
  {
    hide *;
    ghost var was := out.Counted();
    NoSourcesYet(g, root, id, out, path, before, was);
    VisitSources(g, root, id, out, path, before, was);
    OpenSources(g, root, id, out, path, before, was, |g.edges|);
    ghost var inner := out.Visited();
    TallyItem(g, was, out.Counted(), inner[|before|..], id);
    SliceOfPushed(before, inner, id);
    Leave(g, root, id, out, path);
  }

  method Enter(id: U32, out: Validation)
    requires out.Valid() && out.pathCount < MAX_DERIVED_PATH
    modifies out`pathCount, out`maxDepth, out.path
    ensures out.Valid() && out.pathCount == old(out.pathCount) + 1 && out.Stopped() == old(out.Stopped())
    ensures out.Path() == old(out.Path()) + [id] && out.Visited() == old(out.Visited())
    ensures out.Picture() == old(out.Picture()).(path := old(out.Path()) + [id],
                                                 maxDepth := Max(old(out.maxDepth), |old(out.Path())|))
  {
    out.PushPath(id);
  }

  /** The item leaves the path and joins the visited ones. */
  method Leave(g: Graph, ghost root: U32, id: U32, out: Validation, ghost path: seq<U32>)
    requires ValidGraph(g) && out.Valid() && SearchInvariant(g, root, out.Picture())
    requires out.Path() == path + [id] && ArcChain(g, path, id)
             && (!out.Stopped() ==> Exhausted(g, id, out.Visited(), |g.edges|))
    modifies out`pathCount, out`visitedCount, out.visited
    ensures out.Valid() && SearchInvariant(g, root, out.Picture())
    ensures out.Path() == path && out.Visited() == old(out.Visited()) + [id] && out.Stopped() == old(out.Stopped())
    ensures out.Counted() == old(out.Counted())
  {
    LeaveKeepsInvariant(g, root, out.Picture(), path, id);
    hide SearchInvariant;
    hide ArcChain;
    hide Exhausted;
    hide ValidGraph;
    out.PopPath(id, path);
  }

  lemma SliceOfPushed(before: seq<U32>, inner: seq<U32>, id: U32)
    requires before <= inner
    ensures before <= inner + [id] && id in inner + [id]
    ensures (inner + [id])[|before|..] == inner[|before|..] + [id]
  {
    assert (inner + [id])[|inner|] == id;
  }

  /** Follows the `dimg` references of `id`, which is the last item on the path. */
  method VisitSources(g: Graph, ghost root: U32, id: U32, out: Validation, ghost path: seq<U32>,
                      ghost before: seq<U32>, ghost was: Tally)
    requires ValidGraph(g) && ArcChain(g, path, id) && id in g.known
    requires SourcesTo(g, root, id, out, path, before, was, 0)
    modifies out, out.path, out.visited
    ensures SourcesTo(g, root, id, out, path, before, was, |g.edges|)
    decreases MAX_DERIVED_PATH - out.pathCount, 2
  {
    hide *;
    var i := 0;
    while i < |g.edges|
      invariant 0 <= i <= |g.edges| && SourcesTo(g, root, id, out, path, before, was, i)
      invariant out.pathCount == old(out.pathCount)
    {
      VisitReference(g, root, id, i, out, path, before, was);
      i := i + 1;
    }
  }

  /** The first `n` references were looked at, starting from the visited items `before`. */
  ghost predicate SourcesTo(g: Graph, root: U32, id: U32, out: Validation, path: seq<U32>, before: seq<U32>,
                            was: Tally, n: nat)
    requires n <= |g.edges|
    reads out, out.path, out.visited
  {
    && out.Valid() && SearchInvariant(g, root, out.Picture())
    && out.Path() == path + [id] && before <= out.Visited()
    && (!out.Stopped() ==> Exhausted(g, id, out.Visited(), n))
    && TalliedTo(g, was, out.Counted(), out.Visited()[|before|..], id, n)
  }

  lemma NoSourcesYet(g: Graph, root: U32, id: U32, out: Validation, path: seq<U32>, before: seq<U32>, was: Tally)
    requires out.Valid() && SearchInvariant(g, root, out.Picture())
    requires out.Path() == path + [id] && before == out.Visited() && was == out.Counted()
    ensures SourcesTo(g, root, id, out, path, before, was, 0)
  {
    NothingExhausted(g, id, before);
    TallyNothing(g, was, id);
    assert before[|before|..] == [];
    hide SearchInvariant;
  }

  /** One step of this: reference `i`, if it is one of `id`. */
  method VisitReference(g: Graph, ghost root: U32, id: U32, i: nat, out: Validation, ghost path: seq<U32>,
                        ghost before: seq<U32>, ghost was: Tally)
    requires ValidGraph(g) && i < |g.edges| && SourcesTo(g, root, id, out, path, before, was, i)
    requires ArcChain(g, path, id) && id in g.known
    modifies out, out.path, out.visited
    ensures SourcesTo(g, root, id, out, path, before, was, i + 1) && out.pathCount == old(out.pathCount)
    decreases MAX_DERIVED_PATH - out.pathCount, 1, 1
  {
    hide *;
    OpenSources(g, root, id, out, path, before, was, i);
    ghost var middle, start := out.Counted(), out.Visited();
    if IsDimg(g.edges[i], id) {
      VisitSource(g, root, id, g.edges[i], out, path);
    }
    ghost var added := out.Visited()[|start|..];
    SliceOfGrown(before, start, out.Visited());
    TallyMore(g, was, middle, out.Counted(), start[|before|..], added, id, i);
    if !out.Stopped() {
      ExhaustedMore(g, id, start, out.Visited(), i);
    }
    CloseSources(g, root, id, out, path, before, was, i + 1);
  }

  lemma OpenSources(g: Graph, root: U32, id: U32, out: Validation, path: seq<U32>, before: seq<U32>, was: Tally,
                    n: nat)
    requires n <= |g.edges| && SourcesTo(g, root, id, out, path, before, was, n)
    ensures out.Valid() && SearchInvariant(g, root, out.Picture())
    ensures out.Path() == path + [id] && before <= out.Visited() && out.pathCount == |path| + 1
    ensures !out.Stopped() ==> Exhausted(g, id, out.Visited(), n)
    ensures TalliedTo(g, was, out.Counted(), out.Visited()[|before|..], id, n)
  {
    hide SearchInvariant;
    hide TalliedTo;
    hide Exhausted;
  }

  lemma CloseSources(g: Graph, root: U32, id: U32, out: Validation, path: seq<U32>, before: seq<U32>, was: Tally,
                     n: nat)
    requires n <= |g.edges| && out.Valid() && SearchInvariant(g, root, out.Picture())
    requires out.Path() == path + [id] && before <= out.Visited()
    requires !out.Stopped() ==> Exhausted(g, id, out.Visited(), n)
    requires TalliedTo(g, was, out.Counted(), out.Visited()[|before|..], id, n)
    ensures SourcesTo(g, root, id, out, path, before, was, n) && out.pathCount == |path| + 1
  {
    hide SearchInvariant;
    hide TalliedTo;
    hide Exhausted;
  }

  lemma NothingExhausted(g: Graph, id: U32, visited: seq<U32>)
    ensures Exhausted(g, id, visited, 0)
  {
  }

  lemma ExhaustedMore(g: Graph, id: U32, start: seq<U32>, visited: seq<U32>, n: nat)
    requires n < |g.edges| && Exhausted(g, id, start, n) && start <= visited
    requires IsDimg(g.edges[n], id) && g.edges[n].toItem in g.known ==> g.edges[n].toItem in visited
    ensures Exhausted(g, id, visited, n + 1)
  {
  }

  lemma SliceOfGrown(before: seq<U32>, start: seq<U32>, visited: seq<U32>)
    requires before <= start <= visited
    ensures visited[|before|..] == start[|before|..] + visited[|start|..] && before <= visited
    ensures start == visited ==> visited[|start|..] == []
  {
  }

  lemma ArcByEdge(g: Graph, e: RefEdge, id: U32)
    requires e in g.edges && IsDimg(e, id) && e.toItem in g.known
    ensures Arc(g, id, e.toItem)
  {
  }

  /** Follows one `dimg` reference of `id`. */
  method VisitSource(g: Graph, ghost root: U32, id: U32, e: RefEdge, out: Validation, ghost path: seq<U32>)
    requires ValidGraph(g) && out.Valid() && SearchInvariant(g, root, out.Picture())
    requires ArcChain(g, path, id) && out.Path() == path + [id] && id in g.known
    requires e in g.edges && IsDimg(e, id)
    modifies out, out.path, out.visited
    ensures out.Valid() && SearchInvariant(g, root, out.Picture())
    ensures out.Path() == path + [id] && old(out.Visited()) <= out.Visited()
    ensures old(out.Stopped()) ==> out.Stopped()
    ensures !out.Stopped() && e.toItem in g.known ==> e.toItem in out.Visited()
    ensures TalliedOne(g, old(out.Counted()), out.Counted(), out.Visited()[|old(out.Visited())|..], id, e)
    decreases MAX_DERIVED_PATH - out.pathCount, 1, 0
  {
    hide SearchInvariant;
    hide ArcChain;
    ghost var start := out.Visited();
    if e.toItem in g.known {
      ArcByEdge(g, e, id);
    }
    if e.toItem == id {
      SelfReferenceKeepsInvariant(g, root, out.Picture(), path, id);
      out.selfReference := true;
    }
    var listed := FindItemInfo(g.known, e.toItem);
    if !listed {
      out.missingSources := out.missingSources + 1;
      assert start[|start|..] == [];
      TallyNothing(g, out.Counted(), id);
      return;
    }
    ArcChainExtends(g, path, id, e.toItem);
    ValidateNode(g, root, e.toItem, out);
  }

  // ----- what the result means --------------------------------------------------------------------

  lemma ArcChainSuffix(g: Graph, path: seq<U32>, id: U32, j: nat)
    requires ArcChain(g, path, id) && j < |path|
    ensures ArcChain(g, path[j..], id)
  {
    var suffix := path[j..];
    forall i | 0 <= i < |suffix|
      ensures Arc(g, suffix[i], NextItem(suffix, id, i))
    {
      assert Arc(g, path[j + i], NextItem(path, id, j + i));
    }
  }

  /** In a closed list, a chain of steps from entry `k` only visits entries before it. */
  lemma {:induction false} ChainGoesDown(g: Graph, visited: seq<U32>, path: seq<U32>, id: U32, k: nat)
    requires Closed(g, visited) && k < |visited| && path != [] && path[0] == visited[k] && ArcChain(g, path, id)
    ensures id in visited[..k]
    decreases |path|
  {
    assert Arc(g, path[0], NextItem(path, id, 0));
    if |path| > 1 {
      var m :| 0 <= m < k && visited[..k][m] == path[1];
      ArcChainSuffix(g, path, id, 1);
      ChainGoesDown(g, visited, path[1..], id, m);
      assert visited[..m] <= visited[..k];
    }
  }

  /** So a closed list that starts the search leaves no room for a cycle. */
  lemma ClosedIsAcyclic(g: Graph, root: U32, visited: seq<U32>)
    requires Closed(g, visited) && Unique(visited) && root in visited
    ensures !CycleReachable(g, root)
  {
    hide ArcChain;
    forall path, id | CycleWitness(g, root, path, id)
      ensures false
    {
      var k :| 0 <= k < |visited| && visited[k] == root;
      ChainGoesDown(g, visited, path, id, k);
      var m :| 0 <= m < k && visited[..k][m] == id;
      var j :| 0 <= j < |path| && path[j] == id;
      ArcChainSuffix(g, path, id, j);
      ChainGoesDown(g, visited, path[j..], id, m);
    }
  }

  /** And it holds everything that can be reached. */
  lemma ClosedHoldsReachable(g: Graph, root: U32, visited: seq<U32>, u: U32)
    requires Closed(g, visited) && root in visited && Reachable(g, root, u)
    ensures u in visited
  {
    if u != root {
      var path :| ReachWitness(g, root, path, u);
      var k :| 0 <= k < |visited| && visited[k] == root;
      ChainGoesDown(g, visited, path, u, k);
    }
  }

  /** The `dimg` references that leave reachable items and lead to no listed item. */
  ghost function DanglingEdges(g: Graph, items: seq<U32>): set<nat> {
    set k: nat | k < |g.edges| && IsDimg(g.edges[k], g.edges[k].fromItem) && g.edges[k].fromItem in items
                 && g.edges[k].toItem !in g.known
  }

  ghost function DanglingOf(g: Graph, u: U32, n: nat): set<nat>
    requires n <= |g.edges|
  {
    set k: nat | k < n && IsDimg(g.edges[k], u) && g.edges[k].toItem !in g.known
  }

  predicate Dangles(g: Graph, u: U32, e: RefEdge) { IsDimg(e, u) && e.toItem !in g.known }

  lemma DanglingOfLast(g: Graph, u: U32, n: nat)
    requires 0 < n <= |g.edges|
    ensures DanglingOf(g, u, n) == DanglingOf(g, u, n - 1) + if Dangles(g, u, g.edges[n - 1]) then {n - 1} else {}
  {
    hide IsDimg;
  }

  lemma {:induction false} DanglingCountsOne(g: Graph, u: U32, n: nat)
    requires n <= |g.edges|
    ensures Dangling(g, u, n) == |DanglingOf(g, u, n)|
  {
    if n == 0 {
      assert DanglingOf(g, u, n) == {};
    } else {
      DanglingCountsOne(g, u, n - 1);
      DanglingOfLast(g, u, n);
      assert n - 1 !in DanglingOf(g, u, n - 1);
      hide DanglingOf;
      hide IsDimg;
    }
  }

  /** A dangling reference is from the items or from one more, and from both only if it is one of them. */
  lemma DanglingEdgeOf(g: Graph, items: seq<U32>, last: U32, k: nat)
    ensures k in DanglingEdges(g, items + [last]) <==>
              k in DanglingEdges(g, items) || k in DanglingOf(g, last, |g.edges|)
    ensures last !in items ==> !(k in DanglingEdges(g, items) && k in DanglingOf(g, last, |g.edges|))
  {
  }

  /** The counter of missing sources counts references, each once. */
  lemma {:induction false} DanglingCounts(g: Graph, items: seq<U32>)
    requires Unique(items)
    ensures DanglingFrom(g, items) == |DanglingEdges(g, items)|
  {
    if items == [] {
      assert DanglingEdges(g, items) == {};
    } else {
      var last := items[|items| - 1];
      var init := items[..|items| - 1];
      DanglingCounts(g, init);
      DanglingCountsOne(g, last, |g.edges|);
      assert last !in init && items == init + [last];
      hide IsDimg;
      forall k: nat ensures k in DanglingEdges(g, items) <==>
          k in DanglingEdges(g, init) || k in DanglingOf(g, last, |g.edges|) {
        DanglingEdgeOf(g, init, last, k);
      }
      assert DanglingEdges(g, items) == DanglingEdges(g, init) + DanglingOf(g, last, |g.edges|);
      assert DanglingEdges(g, init) !! DanglingOf(g, last, |g.edges|) by {
        forall k: nat ensures !(k in DanglingEdges(g, init) && k in DanglingOf(g, last, |g.edges|)) {
          DanglingEdgeOf(g, init, last, k);
        }
      }
      hide DanglingEdges;
      hide DanglingOf;
    }
  }

  /** Reference `k` is a derivation of a visited item from itself. */
  ghost predicate SelfEdge(g: Graph, k: nat, visited: seq<U32>)
    requires k < |g.edges|
  {
    var e := g.edges[k];
    e.refType == FourCC('d', 'i', 'm', 'g') && e.fromItem == e.toItem && e.fromItem in visited
  }

  lemma SelfAmongMeans(g: Graph, visited: seq<U32>)
    ensures SelfAmong(g, visited) <==> exists k :: 0 <= k < |g.edges| && SelfEdge(g, k, visited)
  {
    if SelfAmong(g, visited) {
      var i :| 0 <= i < |visited| && RefersToItself(g, visited[i], |g.edges|);
      var k :| 0 <= k < |g.edges| && IsDimg(g.edges[k], visited[i]) && g.edges[k].toItem == visited[i];
      assert SelfEdge(g, k, visited);
    }
    if k :| 0 <= k < |g.edges| && SelfEdge(g, k, visited) {
      var i :| 0 <= i < |visited| && visited[i] == g.edges[k].fromItem;
      assert RefersToItself(g, visited[i], |g.edges|);
    }
  }

  /** What the search tells about the derivation graph below `root`. */
  ghost predicate Verdict(g: Graph, root: U32, s: Snapshot, missing: nat) {
    // a reported cycle is real, and none is missed unless the path ran full
    && (s.cycle ==> CycleReachable(g, root))
    && (!s.depthExceeded ==> (s.cycle <==> CycleReachable(g, root)))
    // a self-reference is reported exactly if a visited item has one, and it is a cycle
    && (s.selfReference <==> exists k :: 0 <= k < |g.edges| && SelfEdge(g, k, s.visited))
    && (s.selfReference ==> CycleReachable(g, root))
    // the path runs full only on a chain of 64 steps; the reported depth is that of some chain, and no visited
    // item is further away
    && (s.depthExceeded ==> DepthReachable(g, root, 64) && s.maxDepth == 63)
    && DepthReachable(g, root, s.maxDepth) && s.maxDepth < 64
    && (forall u :: u in s.visited ==> Within(g, root, u, s.maxDepth))
    // whatever was visited is reachable, and all dangling references of visited items are counted
    && Unique(s.visited) && (forall u :: u in s.visited ==> Reachable(g, root, u))
    && missing == |DanglingEdges(g, s.visited)|
    // unless the search stopped early, the visited items are all the reachable ones, sources first
    && (!s.cycle && !s.depthExceeded ==>
          && Closed(g, s.visited)
          && (forall u :: u in s.visited <==> Reachable(g, root, u)))
  }

  lemma SearchVerdict(g: Graph, root: U32, s: Snapshot, missing: nat)
    requires SearchInvariant(g, root, s) && missing == DanglingFrom(g, s.visited)
    requires s.selfReference <==> SelfAmong(g, s.visited)
    requires !s.cycle && !s.depthExceeded ==> root in s.visited
    ensures Verdict(g, root, s, missing)
  {
    DanglingCounts(g, s.visited);
    SelfAmongMeans(g, s.visited);
    hide DanglingFrom;
    hide DanglingEdges;
    hide SelfAmong;
    if !s.cycle && !s.depthExceeded {
      ClosedIsAcyclic(g, root, s.visited);
      forall u | Reachable(g, root, u) ensures u in s.visited {
        ClosedHoldsReachable(g, root, s.visited, u);
      }
    }
  }

  /** The search that is started for each listed derived image. */
  method ValidateDerivedGraph(g: Graph, id: U32) returns (out: Validation)
    requires ValidGraph(g) && id in g.known
    ensures fresh(out) && out.Valid() && Verdict(g, id, out.Picture(), out.missingSources)
  {
    out := new Validation();
    ValidateNode(g, id, id, out);
    assert out.Visited()[0..] == out.Visited();
    SearchVerdict(g, id, out.Picture(), out.missingSources);
  }
}
