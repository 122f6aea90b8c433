/**
 * Items over plain items can be read in full: their reference trees are so small that no budget is in
 * the way. So a cursor reads from them exactly the bytes that the scanner maps to the file.
 */
module ReadableItems {
  import opened Bytes
  import opened ItemData
  import opened ItemReader
  import opened ItemCursor
  import opened ScannerLayouts
  import opened ScannerItems
  import opened ScannerAgreement

  /** Every extent refers to a plain item, if to any. */
  ghost predicate RefersToPlain(env: Env, loc: Location)
    requires |loc.extents| <= U32_MAX
  {
    forall e :: 0 <= e < |loc.extents| && ExtentTarget(env.props, loc, e).Some? ==>
                  PlainOrNone(env, ExtentTarget(env.props, loc, e).value)
  }

  ghost predicate PlainOrNone(env: Env, id: U32) {
    var loc := UsableLocation(env, id);
    loc.Some? ==> loc.value.constructionMethod < 2
  }

  lemma PlainCostsOne(env: Env, id: U32, fuel: nat)
    requires PlainOrNone(env, id)
    ensures Cost(env, id, fuel) <= 1
  {
    if fuel > 0 && UsableLocation(env, id).Some? {
      var loc := UsableLocation(env, id).value;
      PlainExtentsCost(env, loc, |loc.extents|, fuel);
    }
  }

  lemma {:induction false} ExtentsCostFew(env: Env, loc: Location, n: nat, fuel: nat)
    requires n <= |loc.extents| <= U32_MAX && fuel > 0 && RefersToPlain(env, loc)
    ensures ExtentsCost(env, loc, n, fuel) <= n
  {
    if n > 0 {
      ExtentsCostFew(env, loc, n - 1, fuel);
      var target := ExtentTarget(env.props, loc, n - 1);
      if target.Some? {
        PlainCostsOne(env, target.value, fuel - 1);
      }
    }
  }

  /** What an extent refers to is a plain item, if it is one that can be used. */
  lemma TargetsArePlain(env: Env, src: Source, entries: seq<Entry>, rows: seq<RefRow>, items: seq<U32>, entry: Entry,
                        loc: Location, e: nat)
    requires Comparable(env, src, entries, rows, items, entry) && StoredAs(entry, loc) && e < |loc.extents| <= U32_MAX
    requires ExtentTarget(env.props, loc, e).Some?
    ensures PlainOrNone(env, ExtentTarget(env.props, loc, e).value)
  {
    var id, target := entry.itemId, ExtentTarget(env.props, loc, e).value;
    assert target in IlocTargets(env.props.edges, id);
    assert rows[..|rows|] == rows && id in [id];
    StoredAreTargets(rows, |rows|, id);
    StoredNonzero(rows, |rows|, id);
    assert TargetIn(rows, [id], |rows|, target);
    TablesFindSame(env, src, entries, target);
    if LookupLocation(env.props.locations, target).Some? {
      var stored := TargetIsStored(env, src, entries, rows, items, entry, target);
    }
    hide SameItems;
    hide SameReferences;
    hide OverPlainItems;
    hide TargetIn;
    hide IlocTargets;
    hide EdgesOf;
  }

  /**
   * An item over plain items that has bytes costs at most 17 steps, so a cursor on it opens, and every
   * one of its bytes can be read.
   */
  lemma ComparableItemsReadable(env: Env, src: Source, entries: seq<Entry>, rows: seq<RefRow>, items: seq<U32>,
                                entry: Entry)
    requires Comparable(env, src, entries, rows, items, entry) && env.root == entry.itemId && ItemBytes(env).Some?
    ensures Cost(env, env.root, MAX_RESOLVE_PATH) <= 1 + MAX_EXTENT_RECORDS
    ensures Openable(env) && forall k :: 0 <= k < |ItemBytes(env).value| ==> Readable(env, k)
  {
    var loc := EntryIsStored(env, src, entries, entry);
    forall e | 0 <= e < |loc.extents| && ExtentTarget(env.props, loc, e).Some?
      ensures PlainOrNone(env, ExtentTarget(env.props, loc, e).value)
    {
      TargetsArePlain(env, src, entries, rows, items, entry, loc, e);
    }
    ExtentsCostFew(env, loc, |loc.extents|, MAX_RESOLVE_PATH);
    hide ExtentTarget;
    hide Readable;
    forall k | 0 <= k < |ItemBytes(env).value| ensures Readable(env, k) {
      CheapItemsReadable(env, k);
    }
  }

  /**
   * Takes an item over plain items both ways: the scanner's, to file ranges, and the cursor's, which is
   * opened and read to the end. There are ranges and a cursor for the same items, as long as their
   * bytes can be counted, and both have the same bytes.
   */
  method ScanAndRead(env: Env, src: Source, entries: seq<Entry>, rows: seq<RefRow>, items: seq<U32>, entry: Entry)
    returns (parts: Option<seq<FileRange>>, bytes: Option<seq<Byte>>)
    requires Comparable(env, src, entries, rows, items, entry) && env.root == entry.itemId
    ensures bytes.Some? <==> parts.Some? && SumLengths(entry.extents, |entry.extents|) <= U64_MAX
    ensures parts.Some? ==> RangesInFile(src.file, parts.value)
    ensures bytes.Some? ==> bytes.value == RangeBytes(src.file, parts.value)
  {
    var loc := EntryIsStored(env, src, entries, entry);
    if ItemBytes(env).Some? {
      ComparableItemsReadable(env, src, entries, rows, items, entry);
    }
    hide Flatten;
    hide RangeBytes;
    parts := ScanDerivedItem(src, entries, rows, items, entry, env);
    bytes := ReadWhole(env);
  }

  /** Reads an item to the end, if a cursor on it opens. */
  method ReadWhole(env: Env) returns (bytes: Option<seq<Byte>>)
    requires ValidEnv(env)
    requires ItemBytes(env).Some? ==> Openable(env) && forall k :: 0 <= k < |ItemBytes(env).value| ==> Readable(env, k)
    ensures bytes == ItemBytes(env)
  {
    hide Readable;
    hide Flatten;
    var cursor := InitItemDataCursor(env);
    if cursor.None? {
      return None;
    }
    var c := cursor.value;
    ghost var all := ItemBytes(env).value;
    var read := [];
    while c.logicalOffset < c.logicalSize
      invariant c.Valid() && c.env == env && fresh(c) && |all| == c.logicalSize
      invariant c.logicalOffset <= |all| && read == all[..c.logicalOffset]
      decreases |all| - c.logicalOffset
    {
      var ok, b := c.ReadU8();
      assert ok;
      read := read + [b];
    }
    assert read == all;
    bytes := Some(read);
  }
}
