/**
 * The item-data cursor: opened by one size query, then read byte by byte, each byte with a fresh
 * budget. An item can therefore have a size that some of its bytes cannot be read within.
 */
module ItemCursor {
  import opened Bytes
  import opened ItemData
  import opened ItemResolver
  import opened ItemReader

  // ----- how much dearer a read is than the size query ---------------------------------------

  /** A read never spends more than `fuel` times what the size query of the same item spent. */
  lemma {:induction false} ReadCostBound(env: Env, id: U32, k: nat, fuel: nat)
    requires Flatten(env, id, fuel).Some? && k < |Flatten(env, id, fuel).value|
    ensures ReadCost(env, id, k, fuel) <= fuel * Cost(env, id, fuel)
    decreases fuel, 2
  {
    var loc := UsableLocation(env, id).value;
    ExtentsReadCostBound(env, loc, |loc.extents|, k, fuel);
    var c := ExtentsCost(env, loc, |loc.extents|, fuel);
    assert 1 + c + (fuel - 1) * c <= fuel * (1 + c);
  }

  lemma {:induction false} ExtentsReadCostBound(env: Env, loc: Location, n: nat, k: nat, fuel: nat)
    requires n <= |loc.extents| <= U32_MAX && fuel > 0
    requires FlattenExtents(env, loc, n, fuel).Some? && k < |FlattenExtents(env, loc, n, fuel).value|
    ensures ExtentsReadCost(env, loc, n, k, fuel)
            <= ExtentsCost(env, loc, n, fuel) + (fuel - 1) * ExtentsCost(env, loc, n, fuel)
    decreases fuel, 1, n
  {
    var before := FlattenExtents(env, loc, n - 1, fuel).value;
    if k < |before| {
      ExtentsReadCostBound(env, loc, n - 1, k, fuel);
      CostMonotone(env, loc, n - 1, n, fuel);
      MulMonotone(fuel - 1, ExtentsCost(env, loc, n - 1, fuel), ExtentsCost(env, loc, n, fuel));
    } else if loc.constructionMethod >= 2 {
      PartByte(env, loc, n - 1, k - |before|, fuel);
      var target := ExtentTarget(env.props, loc, n - 1).value;
      ReadCostBound(env, target, SliceStart(loc, n - 1) + (k - |before|), fuel - 1);
      MulMonotone(fuel - 1, SourceCost(env, loc, n - 1, fuel), ExtentsCost(env, loc, n, fuel));
    }
  }

  lemma MulMonotone(f: nat, a: nat, b: nat)
    requires a <= b
    ensures f * a <= f * b
  {
  }

  // ----- the cursor -----------------------------------------------------------------------------

  /** The bytes a cursor on `env.root` stands for. */
  ghost function ItemBytes(env: Env): Option<seq<Byte>> {
    Flatten(env, env.root, MAX_RESOLVE_PATH)
  }

  /** Byte `k` can be read with the budget that every read starts with. */
  ghost predicate Readable(env: Env, k: nat)
    requires ItemBytes(env).Some?
  {
    k < |ItemBytes(env).value| && ReadCost(env, env.root, k, MAX_RESOLVE_PATH) <= MAX_RESOLVE_STEPS
  }

  /** The guard under which a cursor can be opened. */
  ghost predicate Openable(env: Env) {
    ItemBytes(env).Some? && Cost(env, env.root, MAX_RESOLVE_PATH) <= MAX_RESOLVE_STEPS
  }

  class ItemDataCursor {
    const env: Env
    var logicalOffset: U64
    var logicalSize: U64
    var referenceDepth: nat

    ghost predicate Valid()
      reads this
    {
      && ValidEnv(env)
      && ItemBytes(env).Some?
      && logicalSize == |ItemBytes(env).value|
      && referenceDepth == Height(env, env.root, MAX_RESOLVE_PATH) - 1
    }

    constructor (env: Env, size: U64, depth: nat)
      requires ValidEnv(env) && ItemBytes(env).Some? && size == |ItemBytes(env).value|
      requires depth == Height(env, env.root, MAX_RESOLVE_PATH) - 1
      ensures Valid() && this.env == env && logicalOffset == 0
    {
      this.env := env;
      logicalOffset, logicalSize, referenceDepth := 0, size, depth;
    }

    method ReadU8() returns (ok: bool, b: Byte)
      requires Valid()
      modifies this
      ensures Valid()
      ensures ok <==> old(logicalOffset) < logicalSize && Readable(env, old(logicalOffset))
      ensures ok ==> b == ItemBytes(env).value[old(logicalOffset)] && logicalOffset == old(logicalOffset) + 1
      ensures !ok ==> logicalOffset == old(logicalOffset)
    {
      if logicalOffset >= logicalSize {
        return false, 0;
      }
      var st := new ResolveState(MAX_RESOLVE_STEPS, referenceDepth);
      ok, b := ReadItemDataByteAt(env, [], env.root, logicalOffset, st);
      referenceDepth := st.maxDepth;
      if ok {
        logicalOffset := logicalOffset + 1;
      }
    }

    /** A big-endian number of up to eight bytes; a failure stops at the first byte that cannot be read. */
    method ReadUintN(byteCount: nat) returns (ok: bool, value: U64)
      requires Valid()
      modifies this
      ensures Valid()
      ensures ok <==> byteCount <= 8 && old(logicalOffset) + byteCount <= Max(logicalSize, old(logicalOffset))
                      && forall k :: old(logicalOffset) <= k < old(logicalOffset) + byteCount ==> Readable(env, k)
      ensures ok && byteCount > 0 ==>
                value == BeValue(ItemBytes(env).value[old(logicalOffset)..old(logicalOffset) + byteCount])
      ensures ok ==> logicalOffset == old(logicalOffset) + byteCount && (byteCount == 0 ==> value == 0)
      ensures !ok && byteCount > 8 ==> logicalOffset == old(logicalOffset)
      ensures !ok && byteCount <= 8 ==>
                && old(logicalOffset) <= logicalOffset < old(logicalOffset) + byteCount && !Readable(env, logicalOffset)
                && forall k :: old(logicalOffset) <= k < logicalOffset ==> Readable(env, k)
    {
      if byteCount > 8 {
        return false, 0;
      }
      value := 0;
      ghost var start := logicalOffset;
      var i := 0;
      assert HasRead(start, 0, 0);
      while i < byteCount
        invariant Valid() && 0 <= i <= byteCount && logicalOffset == start + i && HasRead(start, i, value)
      {
        var b;
        ok, b := ReadU8();
        if !ok {
          return;
        }
        ReadOneMore(start, i, value, b);
        value := value * 256 + b as int;
        i := i + 1;
      }
      ok := true;
    }

    /** The `i` bytes from `start` can be read and are the number `value`. */
    ghost predicate HasRead(start: nat, i: nat, value: nat)
      requires ItemBytes(env).Some?
    {
      && (forall k :: start <= k < start + i ==> Readable(env, k))
      && (i > 0 ==> start + i <= |ItemBytes(env).value| && value == BeValue(ItemBytes(env).value[start..start + i]))
      && (i == 0 ==> value == 0)
    }

    lemma ReadOneMore(start: nat, i: nat, value: nat, b: Byte)
      requires ItemBytes(env).Some? && HasRead(start, i, value) && Readable(env, start + i)
               && b == ItemBytes(env).value[start + i]
      requires i < 8
      ensures HasRead(start, i + 1, value * 256 + b as int) && value * 256 + b as int <= U64_MAX
    {
      var bytes := ItemBytes(env).value;
      var s := bytes[start..start + i + 1];
      assert s[..i] == bytes[start..start + i] && s[i] == b;
      FieldFits(s);
    }
  }

  /** Opens a cursor on item `env.root`; the reported depth is one less than the height of its tree. */
  method InitItemDataCursor(env: Env) returns (r: Option<ItemDataCursor>)
    requires ValidEnv(env)
    ensures r.Some? <==> Openable(env)
    ensures r.Some? ==> r.value.Valid() && r.value.env == env && r.value.logicalOffset == 0 && fresh(r.value)
  {
    var st := new ResolveState(MAX_RESOLVE_STEPS, 0);
    var ok, size := ItemDataSize(env, [], env.root, st);
    if !ok {
      return None;
    }
    HeightSuffices(env, env.root, MAX_RESOLVE_PATH);
    var cursor := new ItemDataCursor(env, size, st.maxDepth);
    r := Some(cursor);
  }

  lemma ChainPrefix(env: Env, path: seq<U32>, id: U32, j: nat)
    requires Chain(env, path, id) && 0 < j <= |path|
    ensures Chain(env, path[..j], NextOnPath(path, id, j - 1))
  {
    hide Refers;
    var prefix := path[..j];
    forall i | 0 <= i < j
      ensures Refers(env, prefix[i], NextOnPath(prefix, NextOnPath(path, id, j - 1), i))
    {
      assert NextOnPath(prefix, NextOnPath(path, id, j - 1), i) == NextOnPath(path, id, i);
    }
  }

  lemma NeverComesBack(env: Env, path: seq<U32>, id: U32, fuel: nat)
    requires path != [] && Chain(env, path, id) && Flatten(env, path[0], fuel).Some?
    ensures id !in path
  {
    ChainUsesFuel(env, path, id, fuel);
    var rest := fuel - |path|;
    NotOnPath(env, path, id, rest);
  }

  /**
   * An item whose size query succeeds heads an acyclic reference tree: every chain of references from
   * it has at most 16 items, and none of them comes back to an item it has passed.
   */
  lemma OpenableIsAcyclic(env: Env, path: seq<U32>, id: U32)
    requires ItemBytes(env).Some? && path != [] && path[0] == env.root && Chain(env, path, id)
    ensures |path| + 1 <= MAX_RESOLVE_PATH
    ensures forall j :: 0 < j <= |path| ==> NextOnPath(path, id, j - 1) !in path[..j]
  {
    ChainUsesFuel(env, path, id, MAX_RESOLVE_PATH);
    forall j | 0 < j <= |path|
      ensures NextOnPath(path, id, j - 1) !in path[..j]
    {
      ChainPrefix(env, path, id, j);
      NeverComesBack(env, path[..j], NextOnPath(path, id, j - 1), MAX_RESOLVE_PATH);
    }
  }

  // ----- when every byte of an openable item can be read -------------------------------------------

  /** The sharing of one budget by size query and read is safe up to a sixteenth of it. */
  lemma CheapItemsReadable(env: Env, k: nat)
    requires ItemBytes(env).Some? && k < |ItemBytes(env).value|
    requires 16 * Cost(env, env.root, MAX_RESOLVE_PATH) <= MAX_RESOLVE_STEPS
    ensures Readable(env, k)
  {
    ReadCostBound(env, env.root, k, MAX_RESOLVE_PATH);
  }

  /** Items that do not refer to others cost one step, so they are always readable in full. */
  lemma PlainItemsReadable(env: Env, k: nat)
    requires ItemBytes(env).Some? && k < |ItemBytes(env).value|
    requires UsableLocation(env, env.root).value.constructionMethod < 2
    ensures Cost(env, env.root, MAX_RESOLVE_PATH) == 1 && Readable(env, k)
  {
    var loc := UsableLocation(env, env.root).value;
    PlainExtentsCost(env, loc, |loc.extents|, MAX_RESOLVE_PATH);
    CheapItemsReadable(env, k);
  }

  lemma {:induction false} PlainExtentsCost(env: Env, loc: Location, n: nat, fuel: nat)
    requires n <= |loc.extents| <= U32_MAX && fuel > 0 && loc.constructionMethod < 2
    ensures ExtentsCost(env, loc, n, fuel) == 0
  {
    if n > 0 {
      PlainExtentsCost(env, loc, n - 1, fuel);
    }
  }
}
