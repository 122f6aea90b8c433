/**
 * The recursive resolver of BMFF item data: the size query and the byte reader, which share a step
 * counter, carry the path of items being resolved, and look at one extent at a time.
 */
module ItemResolver {
  import opened Bytes
  import opened ItemData

  /** The step budget and the depth report, which all calls of one resolution update in place. */
  class ResolveState {
    var remainingSteps: nat
    var maxDepth: nat

    constructor (steps: nat, depth: nat)
      ensures remainingSteps == steps && maxDepth == depth
    {
      remainingSteps, maxDepth := steps, depth;
    }
  }

  // ----- table lookups -----------------------------------------------------------------------

  method FindItemLocation(props: Props, id: U32) returns (r: Option<Location>)
    ensures r == LookupLocation(props.locations, id)
  {
    var i := 0;
    while i < |props.locations|
      invariant 0 <= i <= |props.locations|
      invariant LookupLocation(props.locations, id) == LookupLocation(props.locations[i..], id)
    {
      if props.locations[i].itemId == id {
        return Some(props.locations[i]);
      }
      assert props.locations[i..][1..] == props.locations[i + 1..];
      i := i + 1;
    }
    r := None;
  }

  method GetIlocReferenceItem(props: Props, fromItem: U32, index: U64) returns (r: Option<U32>)
    ensures r == ReferenceTarget(props, fromItem, index)
  {
    if index == 0 || props.edgesTruncated {
      return None;
    }
    TargetsStart(props.edges, fromItem);
    hide IlocTargets;
    var current := 0;
    var i := 0;
    while i < |props.edges|
      invariant 0 <= i <= |props.edges|
      invariant current == |IlocTargets(props.edges[..i], fromItem)| < index
    {
      TargetsStep(props.edges, fromItem, i);
      if props.edges[i].refType == Iloc() && props.edges[i].fromItem == fromItem {
        current := current + 1;
        if current == index {
          TargetsPrefix(props.edges, fromItem, i + 1);
          return Some(props.edges[i].toItem);
        }
      }
      i := i + 1;
    }
    assert props.edges[..i] == props.edges;
    r := None;
  }

  lemma TargetsStart(edges: seq<RefEdge>, id: U32)
    ensures IlocTargets(edges[..0], id) == []
  {
  }

  lemma TargetsStep(edges: seq<RefEdge>, id: U32, i: nat)
    requires i < |edges|
    ensures IlocTargets(edges[..i + 1], id)
            == IlocTargets(edges[..i], id) + if edges[i].refType == Iloc()
                && edges[i].fromItem == id then [edges[i].toItem] else []
  {
    assert edges[..i + 1][..i] == edges[..i];
  }

  lemma {:induction false} TargetsPrefix(edges: seq<RefEdge>, id: U32, n: nat)
    requires n <= |edges|
    ensures IlocTargets(edges[..n], id) <= IlocTargets(edges, id)
  {
    if n < |edges| {
      var init := edges[..|edges| - 1];
      TargetsPrefix(init, id, n);
      assert init[..n] == edges[..n];
    } else {
      assert edges[..n] == edges;
    }
  }

  // ----- one extent ----------------------------------------------------------------------------

  /** Where an extent starts in a source of `size` bytes and how long it is. */
  function ExtentWindow(loc: Location, i: nat, size: nat): Option<(nat, nat)>
    requires i < |loc.extents|
  {
    var start := SliceStart(loc, i);
    var length := loc.extents[i].length;
    if start > U64_MAX || start > size then None
    else if length == 0 then (if |loc.extents| != 1 then None else Some((start, size - start)))
    else if length > size - start then None
    else Some((start, length))
  }

  /** Where extent `i` starts in its source. */
  function SliceStart(loc: Location, i: nat): nat
    requires i < |loc.extents|
  {
    loc.baseOffset + loc.extents[i].offset
  }

  lemma SliceIsWindow(loc: Location, i: nat, src: seq<Byte>)
    requires i < |loc.extents|
    ensures SliceOf(loc, i, src).Some? <==> ExtentWindow(loc, i, |src|).Some?
    ensures var w := ExtentWindow(loc, i, |src|);
            w.Some? ==> SliceOf(loc, i, src).value == src[w.value.0..w.value.0 + w.value.1]
  {
  }

  // ----- entering an item ------------------------------------------------------------------------

  method EnterItemResolve(path: seq<U32>, id: U32, st: ResolveState) returns (ok: bool, longer: seq<U32>)
    modifies st
    ensures ok <==> old(st.remainingSteps) > 0 && |path| < MAX_RESOLVE_PATH && id !in path
    ensures ok ==> longer == path + [id]
    ensures ok ==> st.remainingSteps == old(st.remainingSteps) - 1 && st.maxDepth == Max(old(st.maxDepth), |path|)
    ensures st.remainingSteps <= old(st.remainingSteps)
    ensures !ok ==> st.maxDepth == old(st.maxDepth)
  {
    longer := path;
    if st.remainingSteps == 0 || |path| >= MAX_RESOLVE_PATH {
      return false, path;
    }
    st.remainingSteps := st.remainingSteps - 1;
    var i := 0;
    while i < |path|
      invariant 0 <= i <= |path| && id !in path[..i]
    {
      if path[i] == id {
        return false, path;
      }
      i := i + 1;
    }
    assert path[..i] == path;
    longer := path + [id];
    if |longer| > 1 {
      st.maxDepth := Max(st.maxDepth, |longer| - 1);
    }
    ok := true;
  }

  lemma ExtendChain(env: Env, path: seq<U32>, id: U32, next: U32)
    requires Chain(env, path, id) && Refers(env, id, next)
    ensures Chain(env, path + [id], next)
  {
    var longer := path + [id];
    forall i | 0 <= i < |longer|
      ensures Refers(env, longer[i], NextOnPath(longer, next, i))
    {
      if i < |path| {
        assert NextOnPath(longer, next, i) == NextOnPath(path, id, i);
      }
    }
  }

  /** The fuel left to an item reached over `path`. */
  function FuelAt(path: seq<U32>): nat
    requires |path| <= MAX_RESOLVE_PATH
  {
    MAX_RESOLVE_PATH - |path|
  }

  // ----- the size query ----------------------------------------------------------------------------

  /**
   * Succeeds exactly when the item has bytes and the budget covers its reference tree; the result is
   * their number, and exactly `Cost` steps are spent.
   */
  method ItemDataSize(env: Env, path: seq<U32>, id: U32, st: ResolveState) returns (ok: bool, size: U64)
    requires ValidEnv(env) && |path| <= MAX_RESOLVE_PATH && Chain(env, path, id)
    modifies st
    ensures ok <==> Flatten(env, id, FuelAt(path)).Some? && Cost(env, id, FuelAt(path)) <= old(st.remainingSteps)
    ensures ok ==> size == |Flatten(env, id, FuelAt(path)).value|
    ensures ok ==> st.remainingSteps == old(st.remainingSteps) - Cost(env, id, FuelAt(path))
    ensures ok ==> st.maxDepth == Max(old(st.maxDepth), |path| + Height(env, id, FuelAt(path)) - 1)
    ensures st.remainingSteps <= old(st.remainingSteps)
    ensures old(st.maxDepth) <= st.maxDepth <= Max(old(st.maxDepth), |path| + Height(env, id, FuelAt(path)) - 1)
    decreases FuelAt(path), 2
  {
    size := 0;
    if Flatten(env, id, FuelAt(path)).Some? {
      NotOnPath(env, path, id, FuelAt(path));
    }
    var longer;
    ok, longer := EnterItemResolve(path, id, st);
    if !ok {
      return;
    }
    var found := FindItemLocation(env.props, id);
    if found.None? || !Usable(env, found.value, id) {
      return false, 0;
    }
    ok, size := ExtentsSize(env, path, id, found.value, st);
  }

  /** The loop over the extents. */
  method ExtentsSize(env: Env, path: seq<U32>, id: U32, loc: Location, st: ResolveState) returns (ok: bool, size: U64)
    requires ValidEnv(env) && |path| < MAX_RESOLVE_PATH && Chain(env, path, id)
    requires UsableLocation(env, id) == Some(loc) && |path| <= st.maxDepth
    modifies st
    ensures ok <==> FlattenExtents(env, loc, |loc.extents|, FuelAt(path)).Some?
                    && ExtentsCost(env, loc, |loc.extents|, FuelAt(path)) <= old(st.remainingSteps)
    ensures ok ==> size == |FlattenExtents(env, loc, |loc.extents|, FuelAt(path)).value|
    ensures ok ==> st.remainingSteps == old(st.remainingSteps) - ExtentsCost(env, loc, |loc.extents|, FuelAt(path))
    ensures ok ==> st.maxDepth == Max(old(st.maxDepth), |path| + ExtentsHeight(env, loc, |loc.extents|, FuelAt(path)))
    ensures st.remainingSteps <= old(st.remainingSteps)
    ensures old(st.maxDepth) <= st.maxDepth <= Max(old(st.maxDepth),
                                                   |path| + ExtentsHeight(env, loc, |loc.extents|, FuelAt(path)))
    decreases FuelAt(path), 1
  {
    ghost var n, fuel := |loc.extents|, FuelAt(path);
    ghost var steps, depth := st.remainingSteps, st.maxDepth;
    size := 0;
    var i := 0;
    while i < |loc.extents|
      invariant 0 <= i <= n && SizedTo(env, path, loc, i, size, steps, st.remainingSteps, depth, st.maxDepth)
    {
      SizedStep(env, path, loc, i, size, steps, st.remainingSteps, depth, st.maxDepth);
      hide *;
      var start, length, source;
      ok, start, length, source := LocateExtent(env, path, id, loc, i, st);
      if !ok {
        return;
      }
      if size + length > U64_MAX {
        return false, size;
      }
      size := size + length;
      i := i + 1;
    }
    ok := true;
  }

  /** One more extent: what ends the loop, and what it has found and spent if it goes on. */
  lemma SizedStep(env: Env, path: seq<U32>, loc: Location, i: nat, size: nat, steps: nat, stepsLeft: nat, depth: nat,
                  depthNow: nat)
    requires |path| < MAX_RESOLVE_PATH && i < |loc.extents| <= U32_MAX
    requires SizedTo(env, path, loc, i, size, steps, stepsLeft, depth, depthNow)
    ensures var n, fuel := |loc.extents|, FuelAt(path);
            var part, cost := ExtentBytes(env, loc, i, fuel), SourceCost(env, loc, i, fuel);
            var now := Max(depthNow, |path| + SourceHeight(env, loc, i, fuel));
            && (part.None? || size + |part.value| > U64_MAX ==> FlattenExtents(env, loc, n, fuel).None?)
            && (cost > stepsLeft ==> ExtentsCost(env, loc, n, fuel) > steps)
            && (part.Some? && size + |part.value| <= U64_MAX && cost <= stepsLeft ==>
                  SizedTo(env, path, loc, i + 1, size + |part.value|, steps, stepsLeft - cost, depth, now))
            && depth <= depthNow <= now <= Max(depth, |path| + ExtentsHeight(env, loc, n, fuel))
  {
    OneMoreExtent(env, loc, i, FuelAt(path));
    DeepStep(env, path, loc, i, depth, depthNow);
    hide FlattenExtents;
    hide ExtentsCost;
    hide ExtentsHeight;
    hide ExtentBytes;
    hide SourceCost;
    hide SourceHeight;
    hide Max;
  }

  /** What one more extent adds to the bytes and to the cost. */
  lemma OneMoreExtent(env: Env, loc: Location, i: nat, fuel: nat)
    requires i < |loc.extents| <= U32_MAX && fuel > 0 && FlattenExtents(env, loc, i, fuel).Some?
    ensures var part, before, after := ExtentBytes(env, loc, i, fuel), FlattenExtents(env, loc, i, fuel),
            FlattenExtents(env, loc, i + 1, fuel);
            && (after.Some? <==> part.Some? && |before.value| + |part.value| <= U64_MAX)
            && (after.Some? ==> after.value == before.value + part.value)
            && (FlattenExtents(env, loc, |loc.extents|, fuel).Some? ==> after.Some?)
    ensures ExtentsCost(env, loc, i + 1, fuel) == ExtentsCost(env, loc, i, fuel) + SourceCost(env, loc, i, fuel)
            <= ExtentsCost(env, loc, |loc.extents|, fuel)
  {
    CostMonotone(env, loc, i + 1, |loc.extents|, fuel);
    if FlattenExtents(env, loc, |loc.extents|, fuel).Some? {
      PrefixFlattens(env, loc, i + 1, |loc.extents|, fuel);
    }
    hide ExtentBytes;
    hide SourceCost;
  }

  lemma DeepStep(env: Env, path: seq<U32>, loc: Location, i: nat, depth: nat, depthNow: nat)
    requires |path| < MAX_RESOLVE_PATH && i < |loc.extents| <= U32_MAX
    requires depthNow == Max(depth, |path| + ExtentsHeight(env, loc, i, FuelAt(path)))
    ensures var now := Max(depthNow, |path| + SourceHeight(env, loc, i, FuelAt(path)));
            && now == Max(depth, |path| + ExtentsHeight(env, loc, i + 1, FuelAt(path)))
            && depth <= depthNow <= now <= Max(depth, |path| + ExtentsHeight(env, loc, |loc.extents|, FuelAt(path)))
  {
    HeightMonotone(env, loc, i + 1, |loc.extents|, FuelAt(path));
    hide SourceHeight;
  }

  /** What the loop over the extents has found and spent after `n` of them. */
  ghost predicate SizedTo(env: Env, path: seq<U32>, loc: Location, n: nat, size: nat, steps: nat, stepsLeft: nat,
                          depth: nat, depthNow: nat)
    requires |path| < MAX_RESOLVE_PATH && n <= |loc.extents| <= U32_MAX
  {
    var fuel := FuelAt(path);
    && FlattenExtents(env, loc, n, fuel).Some? && size == |FlattenExtents(env, loc, n, fuel).value|
    && stepsLeft == steps - ExtentsCost(env, loc, n, fuel)
    && depthNow == Max(depth, |path| + ExtentsHeight(env, loc, n, fuel))
  }

  /** Checks one extent against the size of its source: where it starts there and how long it is. */
  method LocateExtent(env: Env, path: seq<U32>, id: U32, loc: Location, i: nat, st: ResolveState)
    returns (ok: bool, start: nat, length: nat, source: Option<U32>)
    requires ValidEnv(env) && |path| < MAX_RESOLVE_PATH && Chain(env, path, id)
    requires UsableLocation(env, id) == Some(loc) && i < |loc.extents| && |path| <= st.maxDepth
    modifies st
    ensures ok <==>
              && ExtentBytes(env, loc, i, FuelAt(path)).Some?
              && SourceCost(env, loc, i, FuelAt(path)) <= old(st.remainingSteps)
    ensures ok ==> start == SliceStart(loc, i) && length == |ExtentBytes(env, loc, i, FuelAt(path)).value|
    ensures ok ==> st.remainingSteps == old(st.remainingSteps) - SourceCost(env, loc, i, FuelAt(path))
    ensures ok && loc.constructionMethod == 2 ==> source.Some? && source == ExtentTarget(env.props, loc, i)
    ensures ok ==> st.maxDepth == Max(old(st.maxDepth), |path| + SourceHeight(env, loc, i, FuelAt(path)))
    ensures st.remainingSteps <= old(st.remainingSteps)
    ensures old(st.maxDepth) <= st.maxDepth <= Max(old(st.maxDepth), |path| + SourceHeight(env, loc, i, FuelAt(path)))
    decreases FuelAt(path), 0, 1
  {
    start, length := 0, 0;
    var sourceSize;
    ok, sourceSize, source := ItemExtentSourceSize(env, path, id, loc, i, st);
    if !ok {
      return;
    }
    SliceIsWindow(loc, i, SourceBytes(env, loc, i, FuelAt(path)).value);
    var window := ExtentWindow(loc, i, sourceSize);
    if window.None? {
      return false, 0, 0, None;
    }
    start, length := window.value.0, window.value.1;
  }

  /** The number of bytes extent `i` may be cut from, and the source item for construction method 2. */
  method ItemExtentSourceSize(env: Env, path: seq<U32>, id: U32, loc: Location, i: nat, st: ResolveState)
    returns (ok: bool, size: U64, source: Option<U32>)
    requires ValidEnv(env) && |path| < MAX_RESOLVE_PATH && Chain(env, path, id)
    requires UsableLocation(env, id) == Some(loc) && i < |loc.extents|
    modifies st
    ensures ok <==>
              && SourceBytes(env, loc, i, FuelAt(path)).Some?
              && SourceCost(env, loc, i, FuelAt(path)) <= old(st.remainingSteps)
    ensures ok ==> size == |SourceBytes(env, loc, i, FuelAt(path)).value|
    ensures ok ==> st.remainingSteps == old(st.remainingSteps) - SourceCost(env, loc, i, FuelAt(path))
    ensures ok && loc.constructionMethod == 2 ==> source.Some? && source == ExtentTarget(env.props, loc, i)
    ensures ok ==> st.maxDepth == Max(old(st.maxDepth),
                                      if loc.constructionMethod == 2
                                          then |path| + SourceHeight(env, loc, i, FuelAt(path)) else 0)
    ensures st.remainingSteps <= old(st.remainingSteps)
    ensures old(st.maxDepth) <= st.maxDepth <= Max(old(st.maxDepth), |path| + SourceHeight(env, loc, i, FuelAt(path)))
    decreases FuelAt(path), 0, 0
  {
    size, source := 0, None;
    if loc.constructionMethod == 0 {
      return true, |env.file|, None;
    }
    if loc.constructionMethod == 1 {
      if !env.props.haveIdat || env.props.idatOffset > env.props.idatEnd || env.props.idatEnd > |env.file| {
        return false, 0, None;
      }
      return true, env.props.idatEnd - env.props.idatOffset, None;
    }
    source := GetIlocReferenceItem(env.props, loc.itemId, ReferenceIndex(env.props, loc, i));
    if source.None? {
      return false, 0, None;
    }
    assert RefersBy(env, id, source.value, i);
    ExtendChain(env, path, id, source.value);
    ok, size := ItemDataSize(env, path + [id], source.value, st);
  }
}
