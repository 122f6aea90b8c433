/**
 * Reading one byte of an item.
 *
 * Every read starts with a fresh budget of 4096 steps and asks again for the sizes of the sources it
 * passes, at every level of nesting. `ReadCost` says exactly what that spends.
 */
module ItemReader {
  import opened Bytes
  import opened ItemData
  import opened ItemResolver

  /** The steps spent to read byte `k` of item `id`. */
  ghost function ReadCost(env: Env, id: U32, k: nat, fuel: nat): nat
    requires Flatten(env, id, fuel).Some? && k < |Flatten(env, id, fuel).value|
    decreases fuel, 2
  {
    var loc := UsableLocation(env, id).value;
    1 + ExtentsReadCost(env, loc, |loc.extents|, k, fuel)
  }

  /** The steps spent in the extents when byte `k` lies in the first `n` of them. */
  ghost function ExtentsReadCost(env: Env, loc: Location, n: nat, k: nat, fuel: nat): nat
    requires n <= |loc.extents| <= U32_MAX && fuel > 0
    requires FlattenExtents(env, loc, n, fuel).Some? && k < |FlattenExtents(env, loc, n, fuel).value|
    decreases fuel, 1, n
  {
    var before := FlattenExtents(env, loc, n - 1, fuel).value;
    if k < |before| then ExtentsReadCost(env, loc, n - 1, k, fuel)
    else ExtentsCost(env, loc, n, fuel) + PartReadCost(env, loc, n - 1, k - |before|, fuel)
  }

  /** The steps spent below extent `i` to fetch byte `k` of its slice. */
  ghost function PartReadCost(env: Env, loc: Location, i: nat, k: nat, fuel: nat): nat
    requires i < |loc.extents| <= U32_MAX && fuel > 0
    requires ExtentBytes(env, loc, i, fuel).Some? && k < |ExtentBytes(env, loc, i, fuel).value|
    decreases fuel, 0
  {
    if loc.constructionMethod < 2 then 0
    else
      assert SourceBytes(env, loc, i, fuel).Some?;
      var target := ExtentTarget(env.props, loc, i).value;
      ReadCost(env, target, SliceStart(loc, i) + k, fuel - 1)
  }

  /** Byte `k` of an extent is byte `SliceStart + k` of its source. */
  lemma PartByte(env: Env, loc: Location, i: nat, k: nat, fuel: nat)
    requires i < |loc.extents| <= U32_MAX && fuel > 0
    requires ExtentBytes(env, loc, i, fuel).Some? && k < |ExtentBytes(env, loc, i, fuel).value|
    ensures SourceBytes(env, loc, i, fuel).Some?
    ensures SliceStart(loc, i) + k < |SourceBytes(env, loc, i, fuel).value|
    ensures ExtentBytes(env, loc, i, fuel).value[k] == SourceBytes(env, loc, i, fuel).value[SliceStart(loc, i) + k]
  {
  }

  /** If byte `k` lies in extent `i`, a read spends what the extents up to `i` cost plus the part below. */
  lemma {:induction false} ReadCostAt(env: Env, loc: Location, n: nat, i: nat, k: nat, fuel: nat)
    requires i < n <= |loc.extents| <= U32_MAX && fuel > 0
    requires FlattenExtents(env, loc, n, fuel).Some?
    requires FlattenExtents(env, loc, i, fuel).Some? && FlattenExtents(env, loc, i + 1, fuel).Some?
    requires |FlattenExtents(env, loc, i, fuel).value| <= k < |FlattenExtents(env, loc, i + 1, fuel).value|
    ensures k < |FlattenExtents(env, loc, n, fuel).value|
    ensures ExtentsReadCost(env, loc, n, k, fuel)
            == ExtentsCost(env, loc, i + 1, fuel)
               + PartReadCost(env, loc, i, k - |FlattenExtents(env, loc, i, fuel).value|, fuel)
  {
    hide PartReadCost;
    hide ExtentBytes;
    hide SourceCost;
    PrefixFlattens(env, loc, i + 1, n, fuel);
    if i + 1 < n {
      PrefixFlattens(env, loc, n - 1, n, fuel);
      PrefixFlattens(env, loc, i + 1, n - 1, fuel);
      ReadCostAt(env, loc, n - 1, i, k, fuel);
    }
  }

  // ----- where a byte is found --------------------------------------------------------------------

  /**
   * Extent `i` holds byte `k`: it and all extents before it can be located. What comes after it does
   * not matter, so an item that does not flatten may have such bytes as well.
   */
  ghost predicate HoldsByte(env: Env, loc: Location, i: nat, k: nat, fuel: nat)
    requires i < |loc.extents| <= U32_MAX && fuel > 0
  {
    var before, part := FlattenExtents(env, loc, i, fuel), ExtentBytes(env, loc, i, fuel);
    before.Some? && part.Some? && |before.value| <= k < |before.value| + |part.value|
  }

  ghost function HeldByte(env: Env, loc: Location, i: nat, k: nat, fuel: nat): Byte
    requires i < |loc.extents| <= U32_MAX && fuel > 0 && HoldsByte(env, loc, i, k, fuel)
  {
    ExtentBytes(env, loc, i, fuel).value[k - |FlattenExtents(env, loc, i, fuel).value|]
  }

  /** The steps spent to find extent `i` and to fetch byte `k` through it. */
  ghost function HeldCost(env: Env, loc: Location, i: nat, k: nat, fuel: nat): nat
    requires i < |loc.extents| <= U32_MAX && fuel > 0 && HoldsByte(env, loc, i, k, fuel)
  {
    ExtentsCost(env, loc, i + 1, fuel)
    + PartReadCost(env, loc, i, k - |FlattenExtents(env, loc, i, fuel).value|, fuel)
  }

  /** Some extent holds byte `k`, the byte is `b`, and fetching it costs `spent` steps. */
  ghost predicate Fetched(env: Env, loc: Location, k: nat, fuel: nat, b: Byte, spent: int)
    requires |loc.extents| <= U32_MAX && fuel > 0
  {
    exists i :: && 0 <= i < |loc.extents| && HoldsByte(env, loc, i, k, fuel)
                && b == HeldByte(env, loc, i, k, fuel) && spent == HeldCost(env, loc, i, k, fuel)
  }

  /** No extent holds byte `k`, or fetching it costs more than `steps`. */
  ghost predicate OutOfReach(env: Env, loc: Location, k: nat, fuel: nat, steps: nat)
    requires |loc.extents| <= U32_MAX && fuel > 0
  {
    forall i :: 0 <= i < |loc.extents| && HoldsByte(env, loc, i, k, fuel) ==> HeldCost(env, loc, i, k, fuel) > steps
  }

  lemma HolderFlattens(env: Env, loc: Location, i: nat, j: nat, k: nat, fuel: nat)
    requires i < j < |loc.extents| <= U32_MAX && fuel > 0 && HoldsByte(env, loc, j, k, fuel)
    ensures FlattenExtents(env, loc, i, fuel).Some? && ExtentBytes(env, loc, i, fuel).Some?
    ensures |FlattenExtents(env, loc, i, fuel).value| + |ExtentBytes(env, loc, i, fuel).value| <= k
  {
    hide ExtentBytes;
    PrefixFlattens(env, loc, i, j, fuel);
    PrefixFlattens(env, loc, i + 1, j, fuel);
    OneMoreExtent(env, loc, i, fuel);
    hide FlattenExtents;
  }

  /** A byte is held by one extent only. */
  lemma HolderIsUnique(env: Env, loc: Location, i: nat, j: nat, k: nat, fuel: nat)
    requires i < |loc.extents| <= U32_MAX && j < |loc.extents| && fuel > 0
    requires HoldsByte(env, loc, i, k, fuel) && HoldsByte(env, loc, j, k, fuel)
    ensures i == j
  {
    if i < j {
      HolderFlattens(env, loc, i, j, k, fuel);
    } else if j < i {
      HolderFlattens(env, loc, j, i, k, fuel);
    }
    hide FlattenExtents;
    hide ExtentBytes;
  }

  lemma {:induction false} HolderExists(env: Env, loc: Location, n: nat, k: nat, fuel: nat) returns (i: nat)
    requires n <= |loc.extents| <= U32_MAX && fuel > 0
    requires FlattenExtents(env, loc, n, fuel).Some? && k < |FlattenExtents(env, loc, n, fuel).value|
    ensures i < n && HoldsByte(env, loc, i, k, fuel)
  {
    hide ExtentBytes;
    if k < |FlattenExtents(env, loc, n - 1, fuel).value| {
      i := HolderExists(env, loc, n - 1, k, fuel);
    } else {
      i := n - 1;
    }
  }

  /** Of extents that flatten, the one that holds byte `k` holds that of the flattening, at `ReadCost`. */
  lemma HeldInWhole(env: Env, loc: Location, i: nat, k: nat, fuel: nat)
    requires i < |loc.extents| <= U32_MAX && fuel > 0 && HoldsByte(env, loc, i, k, fuel)
    requires FlattenExtents(env, loc, |loc.extents|, fuel).Some?
    ensures var bytes := FlattenExtents(env, loc, |loc.extents|, fuel).value;
            && k < |bytes| && HeldByte(env, loc, i, k, fuel) == bytes[k]
            && HeldCost(env, loc, i, k, fuel) == ExtentsReadCost(env, loc, |loc.extents|, k, fuel)
  {
    var n := |loc.extents|;
    OneMoreExtent(env, loc, i, fuel);
    PrefixFlattens(env, loc, i + 1, n, fuel);
    hide FlattenExtents;
    hide ExtentBytes;
    hide PartReadCost;
    ReadCostAt(env, loc, n, i, k, fuel);
    hide ExtentsReadCost;
  }

  /** What a search over extents that flatten finds, said of the flattening. */
  lemma FetchedFromWhole(env: Env, loc: Location, k: nat, fuel: nat, ok: bool, b: Byte, spent: int, steps: nat)
    requires |loc.extents| <= U32_MAX && fuel > 0 && FlattenExtents(env, loc, |loc.extents|, fuel).Some?
    requires if ok then Fetched(env, loc, k, fuel, b, spent) && spent <= steps else OutOfReach(env, loc, k, fuel, steps)
    ensures var bytes := FlattenExtents(env, loc, |loc.extents|, fuel).value;
            && (ok <==> k < |bytes| && ExtentsReadCost(env, loc, |loc.extents|, k, fuel) <= steps)
            && (ok ==> b == bytes[k] && spent == ExtentsReadCost(env, loc, |loc.extents|, k, fuel))
  {
    hide FlattenExtents;
    hide HoldsByte;
    hide ExtentsReadCost;
    hide HeldCost;
    hide HeldByte;
    if ok {
      var i :| && 0 <= i < |loc.extents| && HoldsByte(env, loc, i, k, fuel)
               && b == HeldByte(env, loc, i, k, fuel) && spent == HeldCost(env, loc, i, k, fuel);
      HeldInWhole(env, loc, i, k, fuel);
    } else if k < |FlattenExtents(env, loc, |loc.extents|, fuel).value| {
      var i := HolderExists(env, loc, |loc.extents|, k, fuel);
      HeldInWhole(env, loc, i, k, fuel);
    }
  }

  // ----- reading ----------------------------------------------------------------------------------

  /** The item can be entered, and it has extents. */
  ghost predicate Enterable(env: Env, path: seq<U32>, id: U32) {
    |path| < MAX_RESOLVE_PATH && id !in path && UsableLocation(env, id).Some?
  }

  /**
   * Reads byte `k` exactly when the item can be entered, one of its extents holds the byte and the budget
   * covers finding it there. Of an item that flattens these are exactly the bytes of the flattening,
   * each at `ReadCost`; past the end there is nothing to read.
   */
  method ReadItemDataByteAt(env: Env, path: seq<U32>, id: U32, k: U64, st: ResolveState) returns (ok: bool, b: Byte)
    requires ValidEnv(env) && |path| <= MAX_RESOLVE_PATH && Chain(env, path, id)
    modifies st
    ensures ok ==>
              && Enterable(env, path, id)
              && Fetched(env, UsableLocation(env, id).value, k, FuelAt(path), b,
                         old(st.remainingSteps) - 1 - st.remainingSteps)
    ensures !ok && Enterable(env, path, id) && old(st.remainingSteps) > 0 ==>
              OutOfReach(env, UsableLocation(env, id).value, k, FuelAt(path), old(st.remainingSteps) - 1)
    ensures Flatten(env, id, FuelAt(path)).Some? ==>
              var bytes := Flatten(env, id, FuelAt(path)).value;
              && (ok <==> k < |bytes| && ReadCost(env, id, k, FuelAt(path)) <= old(st.remainingSteps))
              && (ok ==> b == bytes[k])
              && (ok ==> st.remainingSteps == old(st.remainingSteps) - ReadCost(env, id, k, FuelAt(path)))
    ensures st.remainingSteps <= old(st.remainingSteps)
    ensures old(st.maxDepth) <= st.maxDepth <= Max(old(st.maxDepth), |path| + Height(env, id, FuelAt(path)) - 1)
    decreases FuelAt(path), 1, 0
  {
    b := 0;
    ghost var fuel := FuelAt(path);
    ghost var steps := st.remainingSteps;
    if Flatten(env, id, fuel).Some? {
      NotOnPath(env, path, id, fuel);
    }
    hide Fetched;
    hide OutOfReach;
    var longer;
    ok, longer := EnterItemResolve(path, id, st);
    if !ok {
      return;
    }
    var found := FindItemLocation(env.props, id);
    if found.None? || !Usable(env, found.value, id) {
      return false, 0;
    }
    ok, b := ReadFromExtents(env, path, id, found.value, k, st);
    if Flatten(env, id, fuel).Some? {
      FetchedFromWhole(env, found.value, k, fuel, ok, b, steps - 1 - st.remainingSteps, steps - 1);
    }
    hide FlattenExtents;
    hide ExtentsReadCost;
    hide ExtentsHeight;
  }

  method ReadFromExtents(env: Env, path: seq<U32>, id: U32, loc: Location, k: U64, st: ResolveState)
    returns (ok: bool, b: Byte)
    requires ValidEnv(env) && |path| < MAX_RESOLVE_PATH && Chain(env, path, id)
    requires UsableLocation(env, id) == Some(loc) && |path| <= st.maxDepth
    modifies st
    ensures ok ==> Fetched(env, loc, k, FuelAt(path), b, old(st.remainingSteps) - st.remainingSteps)
    ensures !ok ==> OutOfReach(env, loc, k, FuelAt(path), old(st.remainingSteps))
    ensures st.remainingSteps <= old(st.remainingSteps)
    ensures old(st.maxDepth) <= st.maxDepth <= Max(old(st.maxDepth),
                                                   |path| + ExtentsHeight(env, loc, |loc.extents|, FuelAt(path)))
    decreases FuelAt(path), 0, 1
  {
    ghost var steps, depth := st.remainingSteps, st.maxDepth;
    PassedNone(env, path, loc, k, steps, depth);
    b := 0;
    var remaining: U64 := k;
    var i := 0;
    while i < |loc.extents|
      invariant 0 <= i <= |loc.extents|
                && PassedTo(env, path, loc, i, k, remaining, steps, st.remainingSteps, depth, st.maxDepth)
    {
      PassedStep(env, path, loc, i, k, remaining, steps, st.remainingSteps, depth, st.maxDepth);
      SearchStep(env, path, loc, i, k, remaining, steps, st.remainingSteps, depth, st.maxDepth);
      hide *;
      var start, length, source;
      ok, start, length, source := LocateExtent(env, path, id, loc, i, st);
      if !ok {
        return;
      }
      if remaining >= length {
        remaining := remaining - length;
        i := i + 1;
      } else {
        ok, b := FetchByte(env, path, id, loc, i, start + remaining, source, st);
        return;
      }
    }
    PassedAll(env, path, loc, k, remaining, steps, st.remainingSteps, depth, st.maxDepth);
    hide *;
    ok := false;
  }

  lemma PassedNone(env: Env, path: seq<U32>, loc: Location, k: U64, steps: nat, depth: nat)
    requires |path| < MAX_RESOLVE_PATH && |loc.extents| <= U32_MAX && |path| <= depth
    ensures PassedTo(env, path, loc, 0, k, k, steps, steps, depth, depth)
  {
  }

  /** Past all extents, no extent holds byte `k`. */
  lemma PassedAll(env: Env, path: seq<U32>, loc: Location, k: U64, remaining: nat, steps: nat, stepsLeft: nat,
                  depth: nat, depthNow: nat)
    requires |path| < MAX_RESOLVE_PATH && |loc.extents| <= U32_MAX
    requires PassedTo(env, path, loc, |loc.extents|, k, remaining, steps, stepsLeft, depth, depthNow)
    ensures OutOfReach(env, loc, k, FuelAt(path), steps) && stepsLeft <= steps
    ensures depth <= depthNow <= Max(depth, |path| + ExtentsHeight(env, loc, |loc.extents|, FuelAt(path)))
  {
    forall i | 0 <= i < |loc.extents| && HoldsByte(env, loc, i, k, FuelAt(path)) ensures false {
      PassedNotHeld(env, path, loc, |loc.extents|, i, k, remaining, steps, stepsLeft, depth, depthNow);
    }
    hide HoldsByte;
    hide FlattenExtents;
    hide ExtentsCost;
    hide ExtentsHeight;
  }

  /** An extent that was passed does not hold byte `k`. */
  lemma PassedNotHeld(env: Env, path: seq<U32>, loc: Location, n: nat, i: nat, k: U64, remaining: nat, steps: nat,
                      stepsLeft: nat, depth: nat, depthNow: nat)
    requires |path| < MAX_RESOLVE_PATH && i < n <= |loc.extents| <= U32_MAX
    requires PassedTo(env, path, loc, n, k, remaining, steps, stepsLeft, depth, depthNow)
    ensures !HoldsByte(env, loc, i, k, FuelAt(path))
  {
    var fuel := FuelAt(path);
    PrefixFlattens(env, loc, i, n, fuel);
    PrefixFlattens(env, loc, i + 1, n, fuel);
    OneMoreExtent(env, loc, i, fuel);
    hide FlattenExtents;
    hide ExtentBytes;
    hide ExtentsCost;
    hide ExtentsHeight;
  }

  /** What the search has passed and spent after `n` extents. */
  ghost predicate PassedTo(env: Env, path: seq<U32>, loc: Location, n: nat, k: nat, remaining: nat, steps: nat,
                           stepsLeft: nat,
                           depth: nat, depthNow: nat)
    requires |path| < MAX_RESOLVE_PATH && n <= |loc.extents| <= U32_MAX
  {
    var fuel := FuelAt(path);
    && FlattenExtents(env, loc, n, fuel).Some? && remaining == k - |FlattenExtents(env, loc, n, fuel).value|
    && stepsLeft == steps - ExtentsCost(env, loc, n, fuel)
    && depthNow == Max(depth, |path| + ExtentsHeight(env, loc, n, fuel))
  }

  /** Passing one more extent. */
  lemma PassedStep(env: Env, path: seq<U32>, loc: Location, i: nat, k: U64, remaining: nat, steps: nat, stepsLeft: nat,
                   depth: nat, depthNow: nat)
    requires |path| < MAX_RESOLVE_PATH && i < |loc.extents| <= U32_MAX
    requires PassedTo(env, path, loc, i, k, remaining, steps, stepsLeft, depth, depthNow)
    ensures var fuel := FuelAt(path);
            var part, cost := ExtentBytes(env, loc, i, fuel), SourceCost(env, loc, i, fuel);
            var now := Max(depthNow, |path| + SourceHeight(env, loc, i, fuel));
            && depth <= depthNow <= now <= Max(depth, |path| + ExtentsHeight(env, loc, |loc.extents|, fuel))
            && (part.Some? && remaining >= |part.value| && cost <= stepsLeft ==>
                  PassedTo(env, path, loc, i + 1, k, remaining - |part.value|, steps, stepsLeft - cost, depth, now))
  {
    DeepStep(env, path, loc, i, depth, depthNow);
    hide ExtentBytes;
    hide SourceCost;
    hide SourceHeight;
    hide Max;
  }

  /** What the next extent says about byte `k`: it stops the search, is passed, or holds the byte. */
  lemma SearchStep(env: Env, path: seq<U32>, loc: Location, i: nat, k: U64, remaining: nat, steps: nat, stepsLeft: nat,
                   depth: nat, depthNow: nat)
    requires |path| < MAX_RESOLVE_PATH && i < |loc.extents| <= U32_MAX
    requires PassedTo(env, path, loc, i, k, remaining, steps, stepsLeft, depth, depthNow)
    ensures stepsLeft <= steps
    ensures var fuel, at := FuelAt(path), SliceStart(loc, i) + remaining;
            var part, source := ExtentBytes(env, loc, i, fuel), SourceBytes(env, loc, i, fuel);
            && (part.None? || SourceCost(env, loc, i, fuel) > stepsLeft ==> OutOfReach(env, loc, k, fuel, steps))
            && (part.Some? && remaining < |part.value| ==>
                  && source.Some? && at < |source.value|
                  && (loc.constructionMethod >= 2 ==>
                        && ExtentTarget(env.props, loc, i).Some?
                        && Flatten(env, ExtentTarget(env.props, loc, i).value, fuel - 1) == source)
                  && var spent := steps - stepsLeft + SourceCost(env, loc, i, fuel)
                         + if loc.constructionMethod < 2 then 0
                           else ReadCost(env, ExtentTarget(env.props, loc, i).value, at, fuel - 1);
                     && Fetched(env, loc, k, fuel, source.value[at], spent)
                     && (spent > steps ==> OutOfReach(env, loc, k, fuel, steps)))
  {
    var part := ExtentBytes(env, loc, i, FuelAt(path));
    if part.None? || SourceCost(env, loc, i, FuelAt(path)) > stepsLeft {
      StoppedStep(env, path, loc, i, k, remaining, steps, stepsLeft, depth, depthNow);
    }
    if part.Some? && remaining < |part.value| {
      HeldStep(env, path, loc, i, k, remaining, steps, stepsLeft, depth, depthNow);
    }
    hide *;
  }

  /** An extent that cannot be located within the budget ends the search for what it and later extents hold. */
  lemma StoppedStep(env: Env, path: seq<U32>, loc: Location, i: nat, k: U64, remaining: nat, steps: nat,
                    stepsLeft: nat, depth: nat, depthNow: nat)
    requires |path| < MAX_RESOLVE_PATH && i < |loc.extents| <= U32_MAX
    requires PassedTo(env, path, loc, i, k, remaining, steps, stepsLeft, depth, depthNow)
    requires ExtentBytes(env, loc, i, FuelAt(path)).None? || SourceCost(env, loc, i, FuelAt(path)) > stepsLeft
    ensures OutOfReach(env, loc, k, FuelAt(path), steps)
  {
    var fuel := FuelAt(path);
    forall j | 0 <= j < |loc.extents| && HoldsByte(env, loc, j, k, fuel)
      ensures HeldCost(env, loc, j, k, fuel) > steps
    {
      if j < i {
        PassedNotHeld(env, path, loc, i, j, k, remaining, steps, stepsLeft, depth, depthNow);
      } else {
        if i < j {
          HolderFlattens(env, loc, i, j, k, fuel);
        }
        OneMoreExtent(env, loc, i, fuel);
        CostMonotone(env, loc, i + 1, j + 1, fuel);
        hide FlattenExtents;
        hide ExtentBytes;
        hide ExtentsCost;
        hide PartReadCost;
        hide ExtentsHeight;
      }
    }
    hide *;
  }

  /** An extent that the search need not pass holds byte `k`. */
  lemma HeldStep(env: Env, path: seq<U32>, loc: Location, i: nat, k: U64, remaining: nat, steps: nat, stepsLeft: nat,
                 depth: nat, depthNow: nat)
    requires |path| < MAX_RESOLVE_PATH && i < |loc.extents| <= U32_MAX
    requires PassedTo(env, path, loc, i, k, remaining, steps, stepsLeft, depth, depthNow)
    requires ExtentBytes(env, loc, i, FuelAt(path)).Some? && remaining < |ExtentBytes(env, loc, i, FuelAt(path)).value|
    ensures var fuel, at := FuelAt(path), SliceStart(loc, i) + remaining;
            var source := SourceBytes(env, loc, i, fuel);
            && source.Some? && at < |source.value|
            && (loc.constructionMethod >= 2 ==>
                  && ExtentTarget(env.props, loc, i).Some?
                  && Flatten(env, ExtentTarget(env.props, loc, i).value, fuel - 1) == source)
            && var spent := steps - stepsLeft + SourceCost(env, loc, i, fuel)
                   + if loc.constructionMethod < 2 then 0
                     else ReadCost(env, ExtentTarget(env.props, loc, i).value, at, fuel - 1);
               && Fetched(env, loc, k, fuel, source.value[at], spent)
               && (spent > steps ==> OutOfReach(env, loc, k, fuel, steps))
  {
    var fuel := FuelAt(path);
    PartByte(env, loc, i, remaining, fuel);
    OneMoreExtent(env, loc, i, fuel);
    assert HoldsByte(env, loc, i, k, fuel);
    forall j | 0 <= j < |loc.extents| && HoldsByte(env, loc, j, k, fuel) ensures j == i {
      HolderIsUnique(env, loc, i, j, k, fuel);
    }
    hide HoldsByte;
    hide FlattenExtents;
    hide ExtentBytes;
    hide ExtentsCost;
    hide SourceCost;
    hide ReadCost;
    hide ExtentsHeight;
  }

  /** Fetches byte `offset` of the source of extent `i`. */
  method FetchByte(env: Env, path: seq<U32>, id: U32, loc: Location, i: nat, offset: nat, source: Option<U32>,
                   st: ResolveState)
    returns (ok: bool, b: Byte)
    requires ValidEnv(env) && |path| < MAX_RESOLVE_PATH && Chain(env, path, id)
    requires UsableLocation(env, id) == Some(loc) && i < |loc.extents|
    requires loc.constructionMethod == 2 ==> source.Some? && source == ExtentTarget(env.props, loc, i)
    modifies st
    ensures SourceBytes(env, loc, i, FuelAt(path)).Some? && offset < |SourceBytes(env, loc, i, FuelAt(path)).value| ==>
              var cost := if loc.constructionMethod < 2 then 0
                  else ReadCost(env, source.value, offset, FuelAt(path) - 1);
              && (ok <==> cost <= old(st.remainingSteps))
              && (ok ==> b == SourceBytes(env, loc, i, FuelAt(path)).value[offset])
              && (ok ==> st.remainingSteps == old(st.remainingSteps) - cost)
    ensures st.remainingSteps <= old(st.remainingSteps)
    ensures old(st.maxDepth) <= st.maxDepth <= Max(old(st.maxDepth), |path| + SourceHeight(env, loc, i, FuelAt(path)))
    decreases FuelAt(path), 0, 0
  {
    if offset > U64_MAX {
      return false, 0;
    }
    if loc.constructionMethod == 0 {
      if offset >= |env.file| {
        return false, 0;
      }
      return true, env.file[offset];
    }
    if loc.constructionMethod == 1 {
      var absolute := env.props.idatOffset + offset;
      if absolute > U64_MAX || absolute >= env.props.idatEnd || absolute >= |env.file| {
        return false, 0;
      }
      return true, env.file[absolute];
    }
    assert RefersBy(env, id, source.value, i);
    ExtendChain(env, path, id, source.value);
    ok, b := ReadItemDataByteAt(env, path + [id], source.value, offset, st);
  }
}
