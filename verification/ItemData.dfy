/**
 * What the bytes of a BMFF item are: the denotation that the item-data resolver computes.
 *
 * Section 8.11.3 of ISO/IEC 14496-12 defines an item as the concatenation of its extents, and an
 * extent as a slice of the file (construction method 0), of the `idat` box (method 1), or of the
 * bytes of another item (method 2). `Flatten` says this directly. Its `fuel` bounds the height of
 * the reference tree; no path, no visited set and no step counter occur in it.
 */
module ItemData {
  import opened Bytes

  const MAX_ITEM_LOCATIONS := 128
  const MAX_EXTENT_RECORDS := 16
  const MAX_REFERENCE_EDGES := 512
  const MAX_RESOLVE_PATH := 16
  const MAX_RESOLVE_STEPS := 4096

  datatype Extent = Extent(index: U64, offset: U64, length: U64)

  /** One entry of the item location table; `extents` holds the stored records. */
  datatype Location = Location(
    itemId: U32, constructionMethod: U16, dataReferenceIndex: U16, baseOffset: U64,
    extentCount: U32, extents: seq<Extent>, totalExtentBytes: U64,
    extentTruncated: bool, lengthOverflow: bool)

  /** The sum of the first `n` extent lengths. */
  function SumLengths(extents: seq<Extent>, n: nat): nat
    requires n <= |extents|
  {
    if n == 0 then 0 else SumLengths(extents, n - 1) + extents[n - 1].length
  }

  datatype RefEdge = RefEdge(refType: U32, fromItem: U32, toItem: U32)

  datatype Props = Props(
    edges: seq<RefEdge>, edgesTruncated: bool,
    locations: seq<Location>, indexSize: nat,
    haveIdat: bool, idatOffset: U64, idatEnd: U64)

  /** Everything one resolution depends on; `allowedRef` applies to item `root` only. */
  datatype Env = Env(file: seq<Byte>, props: Props, root: U32, allowedRef: U16)

  predicate ValidEnv(env: Env) {
    |env.file| <= SPAN_MAX
  }

  function Iloc(): U32 { FourCC('i', 'l', 'o', 'c') }

  /** The first location recorded for `id`. */
  function LookupLocation(locations: seq<Location>, id: U32): Option<Location> {
    if locations == [] then None
    else if locations[0].itemId == id then Some(locations[0])
    else LookupLocation(locations[1..], id)
  }

  /** The targets of the `iloc` references of item `id`, in table order. */
  function IlocTargets(edges: seq<RefEdge>, id: U32): seq<U32> {
    if edges == [] then []
    else
      var last := edges[|edges| - 1];
      IlocTargets(edges[..|edges| - 1], id)
      + if last.refType == Iloc() && last.fromItem == id then [last.toItem] else []
  }

  /** The item that reference number `index` (from 1) of item `id` points to. */
  function ReferenceTarget(props: Props, id: U32, index: U64): Option<U32> {
    var targets := IlocTargets(props.edges, id);
    if props.edgesTruncated || index == 0 || index > |targets| then None else Some(targets[index - 1])
  }

  /** The reference number that extent `i` uses: the written one, else its ordinal, else 1. */
  function ReferenceIndex(props: Props, loc: Location, i: nat): U64
    requires i < |loc.extents| <= U32_MAX
  {
    if props.indexSize != 0 then loc.extents[i].index
    else if |loc.extents| > 1 then i + 1
    else 1
  }

  function ExtentTarget(props: Props, loc: Location, i: nat): Option<U32>
    requires i < |loc.extents| <= U32_MAX
  {
    ReferenceTarget(props, loc.itemId, ReferenceIndex(props, loc, i))
  }

  predicate DataReferenceAllowed(env: Env, loc: Location, id: U32) {
    loc.dataReferenceIndex == 0
    || (id == env.root && env.allowedRef != 0 && loc.dataReferenceIndex == env.allowedRef)
  }

  /** The location table tells everything about the item. */
  predicate Usable(env: Env, loc: Location, id: U32) {
    && DataReferenceAllowed(env, loc, id)
    && !loc.extentTruncated
    && !loc.lengthOverflow
    && loc.extentCount != 0
    && loc.extentCount == |loc.extents|
    && loc.constructionMethod <= 2
  }

  function UsableLocation(env: Env, id: U32): (r: Option<Location>)
    ensures r.Some? ==> Usable(env, r.value, id)
  {
    match LookupLocation(env.props.locations, id)
    case None => None
    case Some(loc) => if Usable(env, loc, id) then Some(loc) else None
  }

  predicate IdatReadable(env: Env) {
    env.props.haveIdat && env.props.idatOffset <= env.props.idatEnd <= |env.file|
  }

  /** The bytes of item `id`, if its reference tree is complete and at most `fuel` items high. */
  ghost function Flatten(env: Env, id: U32, fuel: nat): (r: Option<seq<Byte>>)
    ensures r.Some? ==> |r.value| <= U64_MAX
    decreases fuel, 2
  {
    if fuel == 0 then None
    else match UsableLocation(env, id)
      case None => None
      case Some(loc) => FlattenExtents(env, loc, |loc.extents|, fuel)
  }

  /** The first `n` extents of `loc`, joined. */
  ghost function FlattenExtents(env: Env, loc: Location, n: nat, fuel: nat): (r: Option<seq<Byte>>)
    requires n <= |loc.extents| <= U32_MAX && fuel > 0
    ensures r.Some? ==> |r.value| <= U64_MAX
    decreases fuel, 1, n
  {
    if n == 0 then Some([])
    else
      var before := FlattenExtents(env, loc, n - 1, fuel);
      var part := ExtentBytes(env, loc, n - 1, fuel);
      if before.None? || part.None? || |before.value| + |part.value| > U64_MAX then None
      else Some(before.value + part.value)
  }

  /** What extent `i` contributes: a slice of its source; length 0 in a single extent means "the rest". */
  ghost function ExtentBytes(env: Env, loc: Location, i: nat, fuel: nat): Option<seq<Byte>>
    requires i < |loc.extents| <= U32_MAX && fuel > 0
    decreases fuel, 1, i
  {
    match SourceBytes(env, loc, i, fuel)
    case None => None
    case Some(src) => SliceOf(loc, i, src)
  }

  function SliceOf(loc: Location, i: nat, src: seq<Byte>): Option<seq<Byte>>
    requires i < |loc.extents|
  {
    var start := loc.baseOffset + loc.extents[i].offset;
    var length := loc.extents[i].length;
    if start > |src| || start > U64_MAX then None
    else if length == 0 then (if |loc.extents| == 1 then Some(src[start..]) else None)
    else if length > |src| - start then None
    else Some(src[start..start + length])
  }

  ghost function SourceBytes(env: Env, loc: Location, i: nat, fuel: nat): Option<seq<Byte>>
    requires i < |loc.extents| <= U32_MAX && fuel > 0
    decreases fuel, 0
  {
    if loc.constructionMethod == 0 then Some(env.file)
    else if loc.constructionMethod == 1 then
      (if IdatReadable(env) then Some(env.file[env.props.idatOffset..env.props.idatEnd]) else None)
    else match ExtentTarget(env.props, loc, i)
      case None => None
      case Some(target) => Flatten(env, target, fuel - 1)
  }

  // ----- what a resolution spends -------------------------------------------------------------

  /** The number of items visited when the size of `id` is computed: one per node of the reference tree. */
  ghost function Cost(env: Env, id: U32, fuel: nat): nat
    decreases fuel, 2
  {
    if fuel == 0 then 0
    else match UsableLocation(env, id)
      case None => 1
      case Some(loc) => 1 + ExtentsCost(env, loc, |loc.extents|, fuel)
  }

  ghost function ExtentsCost(env: Env, loc: Location, n: nat, fuel: nat): nat
    requires n <= |loc.extents| <= U32_MAX && fuel > 0
    decreases fuel, 1, n
  {
    if n == 0 then 0 else ExtentsCost(env, loc, n - 1, fuel) + SourceCost(env, loc, n - 1, fuel)
  }

  ghost function SourceCost(env: Env, loc: Location, i: nat, fuel: nat): nat
    requires i < |loc.extents| <= U32_MAX && fuel > 0
    decreases fuel, 0
  {
    if loc.constructionMethod < 2 then 0
    else match ExtentTarget(env.props, loc, i)
      case None => 0
      case Some(target) => Cost(env, target, fuel - 1)
  }

  /** The number of items on the longest downward path of the reference tree. */
  ghost function Height(env: Env, id: U32, fuel: nat): nat
    decreases fuel, 2
  {
    if fuel == 0 then 0
    else match UsableLocation(env, id)
      case None => 1
      case Some(loc) => 1 + ExtentsHeight(env, loc, |loc.extents|, fuel)
  }

  ghost function ExtentsHeight(env: Env, loc: Location, n: nat, fuel: nat): nat
    requires n <= |loc.extents| <= U32_MAX && fuel > 0
    decreases fuel, 1, n
  {
    if n == 0 then 0
    else Max(ExtentsHeight(env, loc, n - 1, fuel), SourceHeight(env, loc, n - 1, fuel))
  }

  ghost function SourceHeight(env: Env, loc: Location, i: nat, fuel: nat): nat
    requires i < |loc.extents| <= U32_MAX && fuel > 0
    decreases fuel, 0
  {
    if loc.constructionMethod < 2 then 0
    else match ExtentTarget(env.props, loc, i)
      case None => 0
      case Some(target) => Height(env, target, fuel - 1)
  }

  // ----- prefixes ------------------------------------------------------------------------------

  /** If the first `n` extents flatten, so does every shorter run, and it is a prefix. */
  lemma {:induction false} PrefixFlattens(env: Env, loc: Location, m: nat, n: nat, fuel: nat)
    requires m <= n <= |loc.extents| <= U32_MAX && fuel > 0
    requires FlattenExtents(env, loc, n, fuel).Some?
    ensures FlattenExtents(env, loc, m, fuel).Some?
    ensures FlattenExtents(env, loc, m, fuel).value <= FlattenExtents(env, loc, n, fuel).value
    ensures m < n ==> ExtentBytes(env, loc, m, fuel).Some?
  {
    if m < n {
      PrefixFlattens(env, loc, m, n - 1, fuel);
    }
  }

  lemma {:induction false} CostMonotone(env: Env, loc: Location, m: nat, n: nat, fuel: nat)
    requires m <= n <= |loc.extents| <= U32_MAX && fuel > 0
    ensures ExtentsCost(env, loc, m, fuel) <= ExtentsCost(env, loc, n, fuel)
    ensures m < n ==> ExtentsCost(env, loc, m, fuel) + SourceCost(env, loc, m, fuel) <= ExtentsCost(env, loc, n, fuel)
  {
    if m < n {
      CostMonotone(env, loc, m, n - 1, fuel);
    }
  }

  // ----- the reference relation ------------------------------------------------------------------

  /** Extent `i` of item `u` is a slice of item `v`. */
  ghost predicate RefersBy(env: Env, u: U32, v: U32, i: nat) {
    var loc := UsableLocation(env, u);
    loc.Some? && loc.value.constructionMethod == 2 && i < |loc.value.extents|
    && ExtentTarget(env.props, loc.value, i) == Some(v)
  }

  ghost predicate Refers(env: Env, u: U32, v: U32) {
    exists i: nat :: RefersBy(env, u, v, i)
  }

  function NextOnPath(path: seq<U32>, id: U32, i: nat): U32
    requires i < |path|
  {
    if i + 1 < |path| then path[i + 1] else id
  }

  /** Each item on `path` refers to the next one, and the last one refers to `id`. */
  ghost predicate Chain(env: Env, path: seq<U32>, id: U32) {
    forall i :: 0 <= i < |path| ==> Refers(env, path[i], NextOnPath(path, id, i))
  }

  /** An item that flattens refers only to items that flatten with less fuel. */
  lemma {:induction false} FlattenStep(env: Env, u: U32, v: U32, fuel: nat)
    requires Refers(env, u, v) && Flatten(env, u, fuel).Some?
    ensures fuel > 0 && Flatten(env, v, fuel - 1).Some?
  {
    var i: nat :| RefersBy(env, u, v, i);
    var loc := UsableLocation(env, u).value;
    PrefixFlattens(env, loc, i, |loc.extents|, fuel);
    assert SourceBytes(env, loc, i, fuel) == Flatten(env, v, fuel - 1);
  }

  /** A chain of references uses up one unit of fuel per link. */
  lemma {:induction false} ChainUsesFuel(env: Env, path: seq<U32>, id: U32, fuel: nat)
    requires path != [] && Chain(env, path, id) && Flatten(env, path[0], fuel).Some?
    ensures fuel > |path| && Flatten(env, id, fuel - |path|).Some?
  {
    hide Refers;
    FlattenStep(env, path[0], NextOnPath(path, id, 0), fuel);
    if |path| > 1 {
      var rest := path[1..];
      forall i | 0 <= i < |rest|
        ensures Refers(env, rest[i], NextOnPath(rest, id, i))
      {
        assert Refers(env, path[i + 1], NextOnPath(path, id, i + 1));
      }
      ChainUsesFuel(env, rest, id, fuel - 1);
    }
    assert Flatten(env, id, 0).None?;
  }

  /** An item that can reach itself by references has no bytes, with any fuel. */
  lemma {:induction false} CycleHasNoBytes(env: Env, path: seq<U32>, id: U32, fuel: nat)
    requires path != [] && path[0] == id && Chain(env, path, id)
    ensures Flatten(env, id, fuel).None?
    decreases fuel
  {
    if Flatten(env, id, fuel).Some? {
      ChainUsesFuel(env, path, id, fuel);
      CycleHasNoBytes(env, path, id, fuel - |path|);
    }
  }

  /** So an item that flattens never recurs on the chain of references that led to it. */
  lemma {:induction false} NotOnPath(env: Env, path: seq<U32>, id: U32, fuel: nat)
    requires Chain(env, path, id) && Flatten(env, id, fuel).Some?
    ensures id !in path
  {
    if id in path {
      var j :| 0 <= j < |path| && path[j] == id;
      var cycle := path[j..];
      forall i | 0 <= i < |cycle|
        ensures Refers(env, cycle[i], NextOnPath(cycle, id, i))
      {
        assert Refers(env, path[j + i], NextOnPath(path, id, j + i));
      }
      CycleHasNoBytes(env, cycle, id, fuel);
    }
  }

  // ----- fuel only bounds the height --------------------------------------------------------------

  /** More fuel never changes the bytes, the cost or the height. */
  lemma {:induction false} FuelMonotone(env: Env, id: U32, f: nat, g: nat)
    requires f <= g && Flatten(env, id, f).Some?
    ensures Flatten(env, id, g) == Flatten(env, id, f)
    ensures Cost(env, id, g) == Cost(env, id, f)
    ensures Height(env, id, g) == Height(env, id, f) <= f
    decreases f, 2
  {
    var loc := UsableLocation(env, id).value;
    FuelMonotoneExtents(env, loc, |loc.extents|, f, g);
  }

  lemma {:induction false} FuelMonotoneExtents(env: Env, loc: Location, n: nat, f: nat, g: nat)
    requires n <= |loc.extents| <= U32_MAX && 0 < f <= g
    requires FlattenExtents(env, loc, n, f).Some?
    ensures FlattenExtents(env, loc, n, g) == FlattenExtents(env, loc, n, f)
    ensures ExtentsCost(env, loc, n, g) == ExtentsCost(env, loc, n, f)
    ensures ExtentsHeight(env, loc, n, g) == ExtentsHeight(env, loc, n, f) < f
    decreases f, 1, n
  {
    if n > 0 {
      FuelMonotoneExtents(env, loc, n - 1, f, g);
      assert SourceBytes(env, loc, n - 1, f).Some?;
      if loc.constructionMethod >= 2 {
        FuelMonotone(env, ExtentTarget(env.props, loc, n - 1).value, f - 1, g - 1);
      }
      assert ExtentBytes(env, loc, n - 1, g) == ExtentBytes(env, loc, n - 1, f);
    }
  }

  lemma {:induction false} HeightMonotone(env: Env, loc: Location, m: nat, n: nat, fuel: nat)
    requires m <= n <= |loc.extents| <= U32_MAX && fuel > 0
    ensures ExtentsHeight(env, loc, m, fuel) <= ExtentsHeight(env, loc, n, fuel)
  {
    if m < n {
      HeightMonotone(env, loc, m, n - 1, fuel);
    }
  }

  /** `fuel` is exactly a height bound: an item with bytes has them with fuel `Height` already. */
  lemma {:induction false} HeightSuffices(env: Env, id: U32, f: nat)
    requires Flatten(env, id, f).Some?
    ensures 0 < Height(env, id, f) <= f
    ensures Flatten(env, id, Height(env, id, f)) == Flatten(env, id, f)
    decreases f, 2
  {
    FuelMonotone(env, id, f, f);
    var loc := UsableLocation(env, id).value;
    HeightSufficesExtents(env, loc, |loc.extents|, f, Height(env, id, f));
  }

  lemma {:induction false} HeightSufficesExtents(env: Env, loc: Location, n: nat, f: nat, h: nat)
    requires n <= |loc.extents| <= U32_MAX && 0 < h <= f
    requires FlattenExtents(env, loc, n, f).Some? && ExtentsHeight(env, loc, n, f) < h
    ensures FlattenExtents(env, loc, n, h) == FlattenExtents(env, loc, n, f)
    decreases f, 1, n
  {
    if n > 0 {
      HeightSufficesExtents(env, loc, n - 1, f, h);
      assert SourceBytes(env, loc, n - 1, f).Some?;
      if loc.constructionMethod >= 2 {
        var target := ExtentTarget(env.props, loc, n - 1).value;
        HeightSuffices(env, target, f - 1);
        FuelMonotone(env, target, Height(env, target, f - 1), h - 1);
      }
      assert ExtentBytes(env, loc, n - 1, h) == ExtentBytes(env, loc, n - 1, f);
    }
  }
}
