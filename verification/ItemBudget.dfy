/**
 * Exactly when all bytes of an item can be read: if the dearest byte of each part of its reference
 * tree that it uses is within the budget. `WorstRead` looks at extents only, not at bytes.
 */
module ItemBudget {
  import opened Bytes
  import opened ItemData
  import opened ItemResolver
  import opened ItemReader
  import opened ItemCursor

  /** The number of bytes of the first `n` extents. */
  ghost function SizeTo(env: Env, loc: Location, n: nat, fuel: nat): nat
    requires n <= |loc.extents| <= U32_MAX && fuel > 0 && FlattenExtents(env, loc, n, fuel).Some?
  {
    |FlattenExtents(env, loc, n, fuel).value|
  }

  /** The steps that the dearest byte in `[a, b)` of an item costs. */
  ghost function WorstRead(env: Env, id: U32, a: nat, b: nat, fuel: nat): nat
    requires Flatten(env, id, fuel).Some? && a < b <= |Flatten(env, id, fuel).value|
    decreases fuel, 2
  {
    var loc := UsableLocation(env, id).value;
    1 + WorstInExtents(env, loc, |loc.extents|, a, b, fuel)
  }

  /** The same within the first `n` extents. */
  ghost function WorstInExtents(env: Env, loc: Location, n: nat, a: nat, b: nat, fuel: nat): nat
    requires n <= |loc.extents| <= U32_MAX && fuel > 0 && FlattenExtents(env, loc, n, fuel).Some?
    requires a < b <= SizeTo(env, loc, n, fuel)
    decreases fuel, 1, n
  {
    var before := SizeTo(env, loc, n - 1, fuel);
    if b <= before then WorstInExtents(env, loc, n - 1, a, b, fuel)
    else
      var here := ExtentsCost(env, loc, n, fuel)
          + WorstInPart(env, loc, n - 1, if a < before then 0 else a - before, b - before, fuel);
      if a < before then Max(WorstInExtents(env, loc, n - 1, a, before, fuel), here) else here
  }

  /** The same within extent `i`, without what locating it costs. */
  ghost function WorstInPart(env: Env, loc: Location, i: nat, a: nat, b: nat, fuel: nat): nat
    requires i < |loc.extents| <= U32_MAX && fuel > 0
    requires ExtentBytes(env, loc, i, fuel).Some? && a < b <= |ExtentBytes(env, loc, i, fuel).value|
    decreases fuel, 0
  {
    if loc.constructionMethod < 2 then 0
    else
      PartByte(env, loc, i, b - 1, fuel);
      WorstRead(env, ExtentTarget(env.props, loc, i).value, SliceStart(loc, i) + a, SliceStart(loc, i) + b, fuel - 1)
  }

  /** No byte of the range is dearer. */
  lemma {:induction false} WorstIsBound(env: Env, id: U32, a: nat, b: nat, k: nat, fuel: nat)
    requires Flatten(env, id, fuel).Some? && a <= k < b <= |Flatten(env, id, fuel).value|
    ensures ReadCost(env, id, k, fuel) <= WorstRead(env, id, a, b, fuel)
    decreases fuel, 2
  {
    var loc := UsableLocation(env, id).value;
    WorstIsBoundInExtents(env, loc, |loc.extents|, a, b, k, fuel);
  }

  lemma {:induction false} WorstIsBoundInExtents(env: Env, loc: Location, n: nat, a: nat, b: nat, k: nat, fuel: nat)
    requires n <= |loc.extents| <= U32_MAX && fuel > 0 && FlattenExtents(env, loc, n, fuel).Some?
    requires a <= k < b <= SizeTo(env, loc, n, fuel)
    ensures ExtentsReadCost(env, loc, n, k, fuel) <= WorstInExtents(env, loc, n, a, b, fuel)
    decreases fuel, 1, n, 1
  {
    var before := SizeTo(env, loc, n - 1, fuel);
    if k < before {
      WorstIsBoundInExtents(env, loc, n - 1, a, if b <= before then b else before, k, fuel);
    } else {
      LastIsBound(env, loc, n, if a < before then 0 else a - before, b - before, k - before, fuel);
    }
  }

  /** No byte of the last extent is dearer than its dearest one. */
  lemma {:induction false} LastIsBound(env: Env, loc: Location, n: nat, a: nat, b: nat, k: nat, fuel: nat)
    requires 0 < n <= |loc.extents| <= U32_MAX && fuel > 0 && FlattenExtents(env, loc, n, fuel).Some?
    requires a <= k < b && SizeTo(env, loc, n - 1, fuel) + b <= SizeTo(env, loc, n, fuel)
    ensures ExtentsReadCost(env, loc, n, SizeTo(env, loc, n - 1, fuel) + k, fuel)
            <= ExtentsCost(env, loc, n, fuel) + WorstInPart(env, loc, n - 1, a, b, fuel)
    decreases fuel, 1, n, 0
  {
    if loc.constructionMethod >= 2 {
      var start := SliceStart(loc, n - 1);
      PartByte(env, loc, n - 1, b - 1, fuel);
      WorstIsBound(env, ExtentTarget(env.props, loc, n - 1).value, start + a, start + b, start + k, fuel - 1);
    }
    hide ExtentsCost;
  }

  /** Some byte of the range is as dear. */
  lemma {:induction false} WorstIsReached(env: Env, id: U32, a: nat, b: nat, fuel: nat) returns (k: nat)
    requires Flatten(env, id, fuel).Some? && a < b <= |Flatten(env, id, fuel).value|
    ensures a <= k < b && ReadCost(env, id, k, fuel) == WorstRead(env, id, a, b, fuel)
    decreases fuel, 2
  {
    var loc := UsableLocation(env, id).value;
    k := WorstIsReachedInExtents(env, loc, |loc.extents|, a, b, fuel);
  }

  lemma {:induction false} WorstIsReachedInExtents(env: Env, loc: Location, n: nat, a: nat, b: nat, fuel: nat)
    returns (k: nat)
    requires n <= |loc.extents| <= U32_MAX && fuel > 0 && FlattenExtents(env, loc, n, fuel).Some?
    requires a < b <= SizeTo(env, loc, n, fuel)
    ensures a <= k < b && ExtentsReadCost(env, loc, n, k, fuel) == WorstInExtents(env, loc, n, a, b, fuel)
    decreases fuel, 1, n, 1
  {
    var before := SizeTo(env, loc, n - 1, fuel);
    if b <= before {
      k := WorstIsReachedInExtents(env, loc, n - 1, a, b, fuel);
      return;
    }
    k := LastIsReached(env, loc, n, if a < before then 0 else a - before, b - before, fuel);
    if a < before && WorstInExtents(env, loc, n - 1, a, before, fuel) > ExtentsReadCost(env, loc, n, k, fuel) {
      k := WorstIsReachedInExtents(env, loc, n - 1, a, before, fuel);
    }
  }

  /** Some byte of the last extent is as dear as its dearest one. */
  lemma {:induction false} LastIsReached(env: Env, loc: Location, n: nat, a: nat, b: nat, fuel: nat) returns (k: nat)
    requires 0 < n <= |loc.extents| <= U32_MAX && fuel > 0 && FlattenExtents(env, loc, n, fuel).Some?
    requires a < b && SizeTo(env, loc, n - 1, fuel) + b <= SizeTo(env, loc, n, fuel)
    ensures SizeTo(env, loc, n - 1, fuel) + a <= k < SizeTo(env, loc, n - 1, fuel) + b
    ensures ExtentsReadCost(env, loc, n, k, fuel) == ExtentsCost(env, loc, n, fuel)
            + WorstInPart(env, loc, n - 1, a, b, fuel)
    decreases fuel, 1, n, 0
  {
    k := SizeTo(env, loc, n - 1, fuel) + a;
    if loc.constructionMethod >= 2 {
      var start := SliceStart(loc, n - 1);
      PartByte(env, loc, n - 1, b - 1, fuel);
      var at := WorstIsReached(env, ExtentTarget(env.props, loc, n - 1).value, start + a, start + b, fuel - 1);
      k := SizeTo(env, loc, n - 1, fuel) + (at - start);
    }
    hide ExtentsCost;
  }

  /** All bytes of an item can be read if and only if the dearest one can. */
  lemma AllReadable(env: Env)
    requires ItemBytes(env).Some? && ItemBytes(env).value != []
    ensures (forall k :: 0 <= k < |ItemBytes(env).value| ==> Readable(env, k))
            <==> WorstRead(env, env.root, 0, |ItemBytes(env).value|, MAX_RESOLVE_PATH) <= MAX_RESOLVE_STEPS
  {
    var n := |ItemBytes(env).value|;
    var dearest := WorstIsReached(env, env.root, 0, n, MAX_RESOLVE_PATH);
    assert Readable(env, dearest) <==> WorstRead(env, env.root, 0, n, MAX_RESOLVE_PATH) <= MAX_RESOLVE_STEPS;
    if WorstRead(env, env.root, 0, n, MAX_RESOLVE_PATH) <= MAX_RESOLVE_STEPS {
      forall k | 0 <= k < n ensures Readable(env, k) {
        WorstIsBound(env, env.root, 0, n, k, MAX_RESOLVE_PATH);
      }
    }
  }
}
