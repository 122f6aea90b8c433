/**
 * Extents without a written length. The only extent of an item may omit its length and then reaches to
 * the end of its source: the item has what is left of the source, and the bytes it would have if the
 * length were written out.
 */
module OmittedLengths {
  import opened Bytes
  import opened ItemData
  import opened ItemResolver
  import opened ItemReader

  /** The item has one extent, whose length is omitted. */
  ghost predicate OmitsLength(env: Env, id: U32) {
    var loc := UsableLocation(env, id);
    loc.Some? && |loc.value.extents| == 1 && loc.value.extents[0].length == 0
  }

  /** What the only extent of the item is cut from. */
  ghost function OnlySource(env: Env, id: U32, fuel: nat): Option<seq<Byte>>
    requires OmitsLength(env, id) && fuel > 0
  {
    var loc := UsableLocation(env, id).value;
    if loc.constructionMethod == 0 then Some(env.file)
    else if loc.constructionMethod == 1 then
      (if IdatReadable(env) then Some(env.file[env.props.idatOffset..env.props.idatEnd]) else None)
    else
      var index := if env.props.indexSize == 0 then 1 else loc.extents[0].index;
      match ReferenceTarget(env.props, id, index)
      case None => None
      case Some(target) => Flatten(env, target, fuel - 1)
  }

  /** Where the only extent starts. */
  ghost function OnlyStart(env: Env, id: U32): nat
    requires OmitsLength(env, id)
  {
    UsableLocation(env, id).value.baseOffset + UsableLocation(env, id).value.extents[0].offset
  }

  lemma LookupHasId(locations: seq<Location>, id: U32)
    ensures LookupLocation(locations, id).Some? ==> LookupLocation(locations, id).value.itemId == id
  {
  }

  /** The item has the rest of its source: together with what precedes it, it is the source. */
  lemma RestOfSource(env: Env, id: U32, fuel: nat)
    requires ValidEnv(env) && OmitsLength(env, id) && fuel > 0
    ensures var source, start := OnlySource(env, id, fuel), OnlyStart(env, id);
            && (Flatten(env, id, fuel).Some? <==> source.Some? && start <= |source.value|)
            && (Flatten(env, id, fuel).Some? ==>
                  && |Flatten(env, id, fuel).value| == |source.value| - start
                  && source.value[..start] + Flatten(env, id, fuel).value == source.value)
  {
    var loc := UsableLocation(env, id).value;
    LookupHasId(env.props.locations, id);
    assert SourceBytes(env, loc, 0, fuel) == OnlySource(env, id, fuel);
    assert FlattenExtents(env, loc, 0, fuel) == Some([]);
    var part := ExtentBytes(env, loc, 0, fuel);
    if part.Some? {
      assert [] + part.value == part.value;
    }
  }

  /** The size query and the reader for such an item of the file. */
  lemma RestOfFile(env: Env, id: U32, fuel: nat, k: nat)
    requires ValidEnv(env) && OmitsLength(env, id) && fuel > 0
    requires UsableLocation(env, id).value.constructionMethod == 0 && OnlyStart(env, id) <= |env.file|
    ensures Flatten(env, id, fuel).Some? && |Flatten(env, id, fuel).value| == |env.file| - OnlyStart(env, id)
    ensures k < |Flatten(env, id, fuel).value| ==>
              Flatten(env, id, fuel).value[k] == env.file[OnlyStart(env, id) + k]
  {
    RestOfSource(env, id, fuel);
    var start, bytes := OnlyStart(env, id), Flatten(env, id, fuel).value;
    assert env.file == env.file[..start] + bytes;
  }

  lemma OneExtent(env: Env, loc: Location, fuel: nat)
    requires |loc.extents| == 1 && fuel > 0
    ensures var part := ExtentBytes(env, loc, 0, fuel);
            FlattenExtents(env, loc, 1, fuel) == if part.Some? && |part.value| <= U64_MAX then part else None
  {
    assert FlattenExtents(env, loc, 0, fuel) == Some([]);
    var part := ExtentBytes(env, loc, 0, fuel);
    if part.Some? {
      assert [] + part.value == part.value;
    }
  }

  // ----- writing the length out ---------------------------------------------------------------------

  /** The location with the length `n` written in its first extent. */
  function WithLength(loc: Location, n: U64): Location
    requires loc.extents != []
  {
    loc.(extents := loc.extents[0 := loc.extents[0].(length := n)], totalExtentBytes := n)
  }

  /** The table with the first location of the item rewritten. */
  function Rewritten(locations: seq<Location>, id: U32, n: U64): (r: seq<Location>)
  {
    if locations == [] then []
    else if locations[0].itemId == id then
      (if locations[0].extents == [] then locations else [WithLength(locations[0], n)] + locations[1..])
    else [locations[0]] + Rewritten(locations[1..], id, n)
  }

  function WrittenOut(env: Env, id: U32, n: U64): Env {
    env.(props := env.props.(locations := Rewritten(env.props.locations, id, n)))
  }

  lemma {:induction false} RewrittenLookup(locations: seq<Location>, id: U32, n: U64, x: U32)
    ensures var was, now := LookupLocation(locations, x), LookupLocation(Rewritten(locations, id, n), x);
            now == if x == id && was.Some? && was.value.extents != [] then Some(WithLength(was.value, n)) else was
  {
    if locations != [] && locations[0].itemId != id {
      RewrittenLookup(locations[1..], id, n, x);
      assert Rewritten(locations, id, n)[1..] == Rewritten(locations[1..], id, n);
    } else if locations != [] && locations[0].extents != [] {
      assert Rewritten(locations, id, n)[1..] == locations[1..];
    }
  }

  lemma WrittenOutLocation(env: Env, id: U32, n: U64, x: U32)
    requires OmitsLength(env, id)
    ensures UsableLocation(WrittenOut(env, id, n), x)
            == if x == id then Some(WithLength(UsableLocation(env, id).value, n)) else UsableLocation(env, x)
  {
    RewrittenLookup(env.props.locations, id, n, x);
  }

  /** With its length written out, the item and every other item keep their bytes. */
  lemma {:induction false} WrittenOutSame(env: Env, id: U32, n: U64, depth: nat, x: U32, fuel: nat)
    requires ValidEnv(env) && OmitsLength(env, id) && Flatten(env, id, depth).Some?
    requires |Flatten(env, id, depth).value| == n
    ensures Flatten(WrittenOut(env, id, n), x, fuel) == Flatten(env, x, fuel)
    decreases fuel, 2
  {
    WrittenOutLocation(env, id, n, x);
    if fuel > 0 && UsableLocation(env, x).Some? {
      var loc := UsableLocation(env, x).value;
      if x == id {
        OnlyExtentSame(env, id, n, depth, fuel);
      } else {
        ExtentsSame(env, id, n, depth, loc, |loc.extents|, fuel);
      }
    }
  }

  lemma {:induction false} SourceSame(env: Env, id: U32, n: U64, depth: nat, loc: Location, i: nat, fuel: nat)
    requires ValidEnv(env) && OmitsLength(env, id) && Flatten(env, id, depth).Some?
    requires |Flatten(env, id, depth).value| == n && i < |loc.extents| <= U32_MAX && fuel > 0
    ensures SourceBytes(WrittenOut(env, id, n), loc, i, fuel) == SourceBytes(env, loc, i, fuel)
    decreases fuel, 0
  {
    var target := ExtentTarget(env.props, loc, i);
    assert ExtentTarget(WrittenOut(env, id, n).props, loc, i) == target;
    if target.Some? {
      WrittenOutSame(env, id, n, depth, target.value, fuel - 1);
    }
  }

  lemma {:induction false} ExtentsSame(env: Env, id: U32, n: U64, depth: nat, loc: Location, m: nat, fuel: nat)
    requires ValidEnv(env) && OmitsLength(env, id) && Flatten(env, id, depth).Some?
    requires |Flatten(env, id, depth).value| == n && m <= |loc.extents| <= U32_MAX && fuel > 0
    ensures FlattenExtents(WrittenOut(env, id, n), loc, m, fuel) == FlattenExtents(env, loc, m, fuel)
    decreases fuel, 1, m
  {
    if m > 0 {
      ExtentsSame(env, id, n, depth, loc, m - 1, fuel);
      SourceSame(env, id, n, depth, loc, m - 1, fuel);
    }
  }

  lemma {:induction false} OnlyExtentSame(env: Env, id: U32, n: U64, depth: nat, fuel: nat)
    requires ValidEnv(env) && OmitsLength(env, id) && Flatten(env, id, depth).Some? && fuel > 0
    requires |Flatten(env, id, depth).value| == n
    ensures Flatten(WrittenOut(env, id, n), id, fuel) == Flatten(env, id, fuel)
    decreases fuel, 1, 0
  {
    var after := WrittenOut(env, id, n);
    WrittenOutLocation(env, id, n, id);
    var loc := UsableLocation(env, id).value;
    var written := WithLength(loc, n);
    SourceSame(env, id, n, depth, loc, 0, fuel);
    assert SourceBytes(after, written, 0, fuel) == SourceBytes(after, loc, 0, fuel);
    RestOfSource(env, id, fuel);
    if Flatten(env, id, fuel).Some? {
      FuelMonotone(env, id, fuel, Max(fuel, depth));
      FuelMonotone(env, id, depth, Max(fuel, depth));
    }
    OneExtent(env, loc, fuel);
    OneExtent(after, written, fuel);
    var source, start := SourceBytes(env, loc, 0, fuel), SliceStart(loc, 0);
    assert source == OnlySource(env, id, fuel) && start == OnlyStart(env, id) by {
      LookupHasId(env.props.locations, id);
    }
    if source.Some? && start <= |source.value| {
      assert source.value[start..start + n] == source.value[start..];
    }
    hide SourceBytes;
    hide FlattenExtents;
  }
}
