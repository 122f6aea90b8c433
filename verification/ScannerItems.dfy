/** The tables that the scanner collects: references between items, and the layouts of what they point to. */
module ScannerItems {
  import opened Bytes
  import opened ItemData
  import opened ScannerLayouts

  const MAX_FROM_IDS := 64
  const MAX_TO_IDS := 32
  const MAX_REFERENCED_IDS := 64
  const MAX_LAYOUTS := 64
  const MAX_RESOLVED_EXTENTS := 64
  const MAX_RESOLVED_PARTS := 256

  /** One reference box: all references of one type from one item. */
  datatype RefRow = RefRow(refType: U32, fromItem: U32, toItems: seq<U32>)

  /** The targets stored for one item. */
  datatype ItemRefs = ItemRefs(fromId: U32, toIds: seq<U32>)

  // ----- collecting references ------------------------------------------------------------------------

  /** `targets` continued with the nonzero ones of `more`, as far as there is room. */
  function AddTargets(targets: seq<U32>, more: seq<U32>): seq<U32> {
    if more == [] then targets
    else
      var before := AddTargets(targets, more[..|more| - 1]);
      var id := more[|more| - 1];
      if |before| < MAX_TO_IDS && id != 0 then before + [id] else before
  }

  predicate IsIlocRow(row: RefRow, id: U32) { row.refType == Iloc() && row.fromItem == id }

  /** The stored targets of item `id` after the first `n` rows. */
  function StoredTargets(rows: seq<RefRow>, n: nat, id: U32): seq<U32>
    requires n <= |rows|
  {
    if n == 0 then []
    else if IsIlocRow(rows[n - 1], id) then AddTargets(StoredTargets(rows, n - 1, id), rows[n - 1].toItems)
    else StoredTargets(rows, n - 1, id)
  }

  /** The targets other than 0. */
  function Nonzero(targets: seq<U32>): seq<U32> {
    if targets == [] then []
    else
      var last := targets[|targets| - 1];
      Nonzero(targets[..|targets| - 1]) + if last == 0 then [] else [last]
  }

  /** All targets of item `id` in the first `n` rows, however many there are. */
  function AllTargets(rows: seq<RefRow>, n: nat, id: U32): seq<U32>
    requires n <= |rows|
  {
    if n == 0 then []
    else
      AllTargets(rows, n - 1, id)
      + if rows[n - 1].refType == FourCC('i', 'l', 'o', 'c') && rows[n - 1].fromItem == id
        then Nonzero(rows[n - 1].toItems) else []
  }

  lemma {:induction false} AddedAreFirst(all: seq<U32>, more: seq<U32>)
    ensures AddTargets(all[..Min(|all|, 32)], more) == (all + Nonzero(more))[..Min(|all + Nonzero(more)|, 32)]
  {
    if more == [] {
      assert all + [] == all;
    } else {
      var init, last := more[..|more| - 1], more[|more| - 1];
      AddedAreFirst(all, init);
      var before := all + Nonzero(init);
      if last != 0 {
        assert all + Nonzero(more) == before + [last];
      } else {
        assert all + Nonzero(more) == before;
      }
    }
  }

  /** Of the targets of an item the first 32 are stored. */
  lemma {:induction false} StoredAreFirst(rows: seq<RefRow>, n: nat, id: U32)
    requires n <= |rows|
    ensures StoredTargets(rows, n, id) == AllTargets(rows, n, id)[..Min(|AllTargets(rows, n, id)|, 32)]
  {
    if n > 0 {
      StoredAreFirst(rows, n - 1, id);
      var before := AllTargets(rows, n - 1, id);
      if IsIlocRow(rows[n - 1], id) {
        AddedAreFirst(before, rows[n - 1].toItems);
      } else {
        assert before + [] == before;
      }
    }
  }

  function FindRefs(refs: seq<ItemRefs>, id: U32): (r: Option<nat>)
    ensures r.Some? ==> r.value < |refs| && refs[r.value].fromId == id
    ensures r.None? ==> forall k :: 0 <= k < |refs| ==> refs[k].fromId != id
  {
    if refs == [] then None
    else
      match FindRefs(refs[..|refs| - 1], id)
      case Some(k) => Some(k)
      case None => if refs[|refs| - 1].fromId == id then Some(|refs| - 1) else None
  }

  /** An item of interest has an `iloc` row among the first `n`. */
  predicate Wanted(rows: seq<RefRow>, items: seq<U32>, n: nat, id: U32)
    requires n <= |rows|
  {
    id in items && exists r :: 0 <= r < n && IsIlocRow(rows[r], id)
  }

  /** The table holds the targets of distinct items of interest, and of all of them unless it is full. */
  ghost predicate RefTable(rows: seq<RefRow>, items: seq<U32>, n: nat, refs: seq<ItemRefs>)
    requires n <= |rows|
  {
    && |refs| <= 64
    && (forall k :: 0 <= k < |refs| ==>
        Wanted(rows, items, n, refs[k].fromId) && refs[k].toIds == StoredTargets(rows, n, refs[k].fromId))
    && (forall k, l :: 0 <= k < l < |refs| ==> refs[k].fromId != refs[l].fromId)
    && (|refs| < 64 ==> forall id :: Wanted(rows, items, n, id) ==> FindRefs(refs, id).Some?)
  }

  method CollectRefs(rows: seq<RefRow>, items: seq<U32>) returns (refs: seq<ItemRefs>)
    ensures RefTable(rows, items, |rows|, refs)
  {
    refs := [];
    var i := 0;
    while i < |rows|
      invariant 0 <= i <= |rows| && RefTable(rows, items, i, refs)
    {
      refs := AddRow(rows, items, i, refs);
      i := i + 1;
    }
  }

  lemma WantedNext(rows: seq<RefRow>, items: seq<U32>, n: nat, id: U32)
    requires n < |rows|
    ensures Wanted(rows, items, n + 1, id) <==> Wanted(rows, items, n, id) || (id in items && IsIlocRow(rows[n], id))
  {
    if id in items && exists r :: 0 <= r < n && IsIlocRow(rows[r], id) {
      var r :| 0 <= r < n && IsIlocRow(rows[r], id);
      assert r < n + 1;
    }
  }

  lemma {:induction false} NothingStored(rows: seq<RefRow>, items: seq<U32>, n: nat, id: U32)
    requires n <= |rows| && id in items && !Wanted(rows, items, n, id)
    ensures StoredTargets(rows, n, id) == []
  {
    if n > 0 {
      WantedNext(rows, items, n - 1, id);
      NothingStored(rows, items, n - 1, id);
    }
  }

  /** Row `n` does not touch the table. */
  lemma SkipRow(rows: seq<RefRow>, items: seq<U32>, n: nat, refs: seq<ItemRefs>)
    requires n < |rows| && RefTable(rows, items, n, refs)
    requires rows[n].refType != Iloc() || rows[n].fromItem !in items
             || (FindRefs(refs, rows[n].fromItem).None? && |refs| == MAX_FROM_IDS)
    ensures RefTable(rows, items, n + 1, refs)
  {
    forall id ensures Wanted(rows, items, n + 1, id) <==>
        Wanted(rows, items, n, id) || (id in items && IsIlocRow(rows[n], id)) {
      WantedNext(rows, items, n, id);
    }
    hide Wanted;
  }

  /** `longer` is `refs` with entry `at` replaced or added. */
  predicate PatchedRefs(refs: seq<ItemRefs>, at: nat, longer: seq<ItemRefs>) {
    && at < |longer| <= MAX_FROM_IDS && |longer| == (if at < |refs| then |refs| else at + 1) && at <= |refs|
    && (forall k :: 0 <= k < |refs| && k != at ==> longer[k] == refs[k])
    && (at < |refs| ==> longer[at].fromId == refs[at].fromId)
    && (at == |refs| ==> FindRefs(refs, longer[at].fromId).None?)
  }

  lemma PatchedRefsFind(refs: seq<ItemRefs>, at: nat, longer: seq<ItemRefs>, id: U32)
    requires PatchedRefs(refs, at, longer) && FindRefs(refs, id).Some?
    ensures FindRefs(longer, id).Some?
  {
    var k := FindRefs(refs, id).value;
    assert longer[k].fromId == id;
    hide FindRefs;
  }

  lemma {:induction false} PatchedRefsDistinct(refs: seq<ItemRefs>, at: nat, longer: seq<ItemRefs>)
    requires PatchedRefs(refs, at, longer) && forall k, l :: 0 <= k < l < |refs| ==> refs[k].fromId != refs[l].fromId
    ensures forall k, l :: 0 <= k < l < |longer| ==> longer[k].fromId != longer[l].fromId
  {
    hide FindRefs;
  }

  /** Row `n` continues the targets of entry `at`, which may be new. */
  lemma {:induction false} UpdateRow(rows: seq<RefRow>, items: seq<U32>, n: nat, refs: seq<ItemRefs>, at: nat,
                                     longer: seq<ItemRefs>)
    requires n < |rows| && RefTable(rows, items, n, refs) && PatchedRefs(refs, at, longer)
    requires IsIlocRow(rows[n], longer[at].fromId) && longer[at].fromId in items
    requires longer[at].toIds == AddTargets(if at < |refs| then refs[at].toIds else [], rows[n].toItems)
    ensures RefTable(rows, items, n + 1, longer)
  {
    PatchedRefsDistinct(refs, at, longer);
    NewTargets(rows, items, n, refs, at, longer);
    forall id | Wanted(rows, items, n + 1, id) && |longer| < MAX_FROM_IDS ensures FindRefs(longer, id).Some? {
      WantedNext(rows, items, n, id);
      if FindRefs(refs, id).Some? {
        PatchedRefsFind(refs, at, longer, id);
      }
    }
    hide Wanted;
    hide FindRefs;
    hide StoredTargets;
    hide AddTargets;
    forall k | 0 <= k < |longer|
      ensures Wanted(rows, items, n + 1, longer[k].fromId)
              && longer[k].toIds == StoredTargets(rows, n + 1, longer[k].fromId)
    {
      WantedNext(rows, items, n, longer[k].fromId);
      if k != at {
        assert longer[k] == refs[k] && longer[k].fromId != longer[at].fromId;
        OtherTargets(rows, n, longer[k].fromId);
      }
    }
  }

  lemma OtherTargets(rows: seq<RefRow>, n: nat, id: U32)
    requires n < |rows| && !IsIlocRow(rows[n], id)
    ensures StoredTargets(rows, n + 1, id) == StoredTargets(rows, n, id)
  {
  }

  lemma NewTargets(rows: seq<RefRow>, items: seq<U32>, n: nat, refs: seq<ItemRefs>, at: nat, longer: seq<ItemRefs>)
    requires n < |rows| && RefTable(rows, items, n, refs) && PatchedRefs(refs, at, longer)
    requires IsIlocRow(rows[n], longer[at].fromId) && longer[at].fromId in items
    requires longer[at].toIds == AddTargets(if at < |refs| then refs[at].toIds else [], rows[n].toItems)
    ensures longer[at].toIds == StoredTargets(rows, n + 1, longer[at].fromId)
  {
    hide AddTargets;
    if at == |refs| {
      assert !Wanted(rows, items, n, longer[at].fromId);
      NothingStored(rows, items, n, longer[at].fromId);
    }
    hide Wanted;
  }

  /** Enters one row into the table, if its item is of interest and there is room. */
  method AddRow(rows: seq<RefRow>, items: seq<U32>, n: nat, refs: seq<ItemRefs>) returns (longer: seq<ItemRefs>)
    requires n < |rows| && RefTable(rows, items, n, refs)
    ensures RefTable(rows, items, n + 1, longer)
  {
    var row := rows[n];
    if row.refType != Iloc() || row.fromItem !in items {
      SkipRow(rows, items, n, refs);
      return refs;
    }
    hide RefTable;
    var found := FindRefs(refs, row.fromItem);
    if found.None? && |refs| >= MAX_FROM_IDS {
      TableSize(rows, items, n, refs);
      SkipRow(rows, items, n, refs);
      return refs;
    }
    var at := if found.Some? then found.value else |refs|;
    var start := if found.Some? then refs[at].toIds else [];
    var toIds := start;
    var i := 0;
    while i < |row.toItems|
      invariant 0 <= i <= |row.toItems| && toIds == AddTargets(start, row.toItems[..i])
    {
      assert row.toItems[..i + 1][..i] == row.toItems[..i];
      if |toIds| < MAX_TO_IDS && row.toItems[i] != 0 {
        toIds := toIds + [row.toItems[i]];
      }
      i := i + 1;
    }
    assert row.toItems[..i] == row.toItems;
    longer := if found.Some? then refs[at := ItemRefs(row.fromItem, toIds)] else refs + [ItemRefs(row.fromItem, toIds)];
    UpdateRow(rows, items, n, refs, at, longer);
  }

  lemma TableSize(rows: seq<RefRow>, items: seq<U32>, n: nat, refs: seq<ItemRefs>)
    requires n <= |rows| && RefTable(rows, items, n, refs)
    ensures |refs| <= MAX_FROM_IDS
  {
  }

  /** The target that the table gives for reference number `index` (from 1) of item `id`. */
  function LookupReference(refs: seq<ItemRefs>, id: U32, index: U64): Option<U32> {
    var found := FindRefs(refs, id);
    if found.None? || index == 0 then None
    else
      var toIds := refs[found.value].toIds;
      if index > |toIds| || toIds[index - 1] == 0 then None else Some(toIds[index - 1])
  }

  // ----- collecting the referenced items ----------------------------------------------------------------

  predicate IsTarget(refs: seq<ItemRefs>, n: nat, id: U32)
    requires n <= |refs|
  {
    exists k :: 0 <= k < n && id in refs[k].toIds && id != 0
  }

  /** The distinct targets; all of them unless there are too many. */
  method CollectReferenced(refs: seq<ItemRefs>) returns (ids: seq<U32>)
    ensures |ids| <= 64 && (forall i, j :: 0 <= i < j < |ids| ==> ids[i] != ids[j])
    ensures forall id :: id in ids ==> IsTarget(refs, |refs|, id)
    ensures |ids| < 64 ==> forall id :: IsTarget(refs, |refs|, id) ==> id in ids
  {
    ids := [];
    var i := 0;
    while i < |refs|
      invariant 0 <= i <= |refs| && |ids| <= MAX_REFERENCED_IDS
                && (forall a, b :: 0 <= a < b < |ids| ==> ids[a] != ids[b])
      invariant forall id :: id in ids ==> IsTarget(refs, i, id)
      invariant |ids| < MAX_REFERENCED_IDS ==> forall id :: IsTarget(refs, i, id) ==> id in ids
    {
      ids := AddReferenced(refs, i, ids);
      i := i + 1;
    }
  }

  method AddReferenced(refs: seq<ItemRefs>, i: nat, before: seq<U32>) returns (ids: seq<U32>)
    requires i < |refs| && |before| <= MAX_REFERENCED_IDS
             && (forall a, b :: 0 <= a < b < |before| ==> before[a] != before[b])
    requires forall id :: id in before ==> IsTarget(refs, i, id)
    requires |before| < MAX_REFERENCED_IDS ==> forall id :: IsTarget(refs, i, id) ==> id in before
    ensures |ids| <= MAX_REFERENCED_IDS && (forall a, b :: 0 <= a < b < |ids| ==> ids[a] != ids[b])
    ensures forall id :: id in ids ==> IsTarget(refs, i + 1, id)
    ensures |ids| < MAX_REFERENCED_IDS ==> forall id :: IsTarget(refs, i + 1, id) ==> id in ids
  {
    var toIds := refs[i].toIds;
    ids := before;
    var j := 0;
    while j < |toIds|
      invariant 0 <= j <= |toIds| && |before| <= |ids| <= MAX_REFERENCED_IDS
      invariant forall a, b :: 0 <= a < b < |ids| ==> ids[a] != ids[b]
      invariant forall id :: id in ids ==> id in before || (id in toIds && id != 0)
      invariant forall id :: id in before ==> id in ids
      invariant |ids| < MAX_REFERENCED_IDS ==> forall id :: id in toIds[..j] && id != 0 ==> id in ids
    {
      var id := toIds[j];
      assert toIds[..j + 1] == toIds[..j] + [id];
      if id != 0 {
        if |ids| >= MAX_REFERENCED_IDS {
          break;
        }
        if id !in ids {
          ids := ids + [id];
        }
      }
      j := j + 1;
    }
    assert j == |toIds| ==> toIds[..j] == toIds;
    forall id ensures IsTarget(refs, i + 1, id) <==> IsTarget(refs, i, id) || (id in toIds && id != 0) {
      if exists k :: 0 <= k < i && id in refs[k].toIds && id != 0 {
        var k :| 0 <= k < i && id in refs[k].toIds && id != 0;
        assert k < i + 1;
      }
    }
  }

  // ----- the layouts of the referenced items --------------------------------------------------------------

  function FindLayout(layouts: seq<Layout>, id: U32): (r: Option<nat>)
    ensures r.Some? ==> r.value < |layouts| && layouts[r.value].itemId == id
    ensures r.None? ==> forall k :: 0 <= k < |layouts| ==> layouts[k].itemId != id
  {
    if layouts == [] then None
    else
      match FindLayout(layouts[..|layouts| - 1], id)
      case Some(k) => Some(k)
      case None => if layouts[|layouts| - 1].itemId == id then Some(|layouts| - 1) else None
  }

  /** The last of the first `n` entries for item `id`. */
  function LastEntry(entries: seq<Entry>, n: nat, id: U32): (r: Option<Entry>)
    requires n <= |entries|
    ensures r.Some? ==> r.value.itemId == id
  {
    if n == 0 then None
    else if entries[n - 1].itemId == id then Some(entries[n - 1])
    else LastEntry(entries, n - 1, id)
  }

  ghost predicate LayoutOf(src: Source, layout: Layout, entry: Entry)
    requires ValidSource(src)
  {
    && layout.itemId == entry.itemId && |layout.maps| <= |entry.extents| && SoundLayout(src.file, layout)
    && (layout.valid <==> LayoutMaps(src, entry).Some?)
      && (layout.valid ==> Some(layout.maps) == LayoutMaps(src, entry))
  }

  /** Exactly the referenced items that have an entry have a layout, that of their last entry. */
  ghost predicate LayoutTable(src: Source, entries: seq<Entry>, n: nat, ids: seq<U32>, layouts: seq<Layout>)
    requires ValidSource(src) && n <= |entries|
  {
    && (forall k, l :: 0 <= k < l < |layouts| ==> layouts[k].itemId != layouts[l].itemId)
    && (forall k :: 0 <= k < |layouts| ==>
          layouts[k].itemId in ids && LastEntry(entries, n, layouts[k].itemId).Some?
          && LayoutOf(src, layouts[k], LastEntry(entries, n, layouts[k].itemId).value))
    && (forall id :: id in ids && LastEntry(entries, n, id).Some? ==> FindLayout(layouts, id).Some?)
  }

  /** Distinct items of a list are no more than the list is long. */
  lemma {:induction false} DistinctIn(layouts: seq<Layout>, ids: seq<U32>)
    requires forall k, l :: 0 <= k < l < |layouts| ==> layouts[k].itemId != layouts[l].itemId
    requires forall k :: 0 <= k < |layouts| ==> layouts[k].itemId in ids
    ensures |layouts| <= |ids|
  {
    if layouts != [] {
      var last := layouts[|layouts| - 1].itemId;
      var at :| 0 <= at < |ids| && ids[at] == last;
      var others := ids[..at] + ids[at + 1..];
      forall k | 0 <= k < |layouts| - 1 ensures layouts[k].itemId in others {
        var j :| 0 <= j < |ids| && ids[j] == layouts[k].itemId;
        assert others[if j < at then j else j - 1] == ids[j];
      }
      DistinctIn(layouts[..|layouts| - 1], others);
    }
  }

  method CollectLayouts(src: Source, entries: seq<Entry>, ids: seq<U32>) returns (layouts: seq<Layout>)
    requires ValidSource(src) && |ids| <= MAX_REFERENCED_IDS
    ensures LayoutTable(src, entries, |entries|, ids, layouts)
  {
    layouts := [];
    var i := 0;
    while i < |entries|
      invariant 0 <= i <= |entries| && LayoutTable(src, entries, i, ids, layouts)
    {
      layouts := AddLayout(src, entries, i, ids, layouts);
      i := i + 1;
    }
  }

  /** `longer` is `layouts` with entry `at` replaced or added. */
  predicate Patched(layouts: seq<Layout>, at: nat, longer: seq<Layout>) {
    && at < |longer| && |longer| == (if at < |layouts| then |layouts| else at + 1) && at <= |layouts|
    && (forall k :: 0 <= k < |layouts| && k != at ==> longer[k] == layouts[k])
    && (at < |layouts| ==> longer[at].itemId == layouts[at].itemId)
    && (at == |layouts| ==> FindLayout(layouts, longer[at].itemId).None?)
  }

  lemma PatchedFinds(layouts: seq<Layout>, at: nat, longer: seq<Layout>, id: U32)
    requires Patched(layouts, at, longer) && FindLayout(layouts, id).Some?
    ensures FindLayout(longer, id).Some?
  {
    var k := FindLayout(layouts, id).value;
    assert longer[k].itemId == id;
    hide FindLayout;
  }

  lemma {:induction false} PatchedDistinct(layouts: seq<Layout>, at: nat, longer: seq<Layout>)
    requires Patched(layouts, at, longer) && forall k, l :: 0 <= k < l < |layouts| ==>
               layouts[k].itemId != layouts[l].itemId
    ensures forall k, l :: 0 <= k < l < |longer| ==> longer[k].itemId != longer[l].itemId
  {
    hide FindLayout;
  }

  lemma {:induction false} UpdateLayout(src: Source, entries: seq<Entry>, n: nat, ids: seq<U32>, layouts: seq<Layout>,
                                        at: nat, longer: seq<Layout>)
    requires ValidSource(src) && n < |entries| && LayoutTable(src, entries, n, ids, layouts) && entries[n].itemId in ids
    requires Patched(layouts, at, longer) && LayoutOf(src, longer[at], entries[n])
    ensures LayoutTable(src, entries, n + 1, ids, longer)
  {
    PatchedDistinct(layouts, at, longer);
    assert longer[at].itemId == entries[n].itemId;
    forall id | id in ids && LastEntry(entries, n + 1, id).Some? ensures FindLayout(longer, id).Some? {
      if FindLayout(layouts, id).Some? {
        PatchedFinds(layouts, at, longer, id);
      }
    }
    hide LayoutOf;
    hide FindLayout;
    forall k | 0 <= k < |longer|
      ensures longer[k].itemId in ids && LastEntry(entries, n + 1, longer[k].itemId).Some?
      ensures LayoutOf(src, longer[k], LastEntry(entries, n + 1, longer[k].itemId).value)
    {
      if k != at {
        assert longer[k] == layouts[k] && longer[k].itemId != longer[at].itemId;
      }
    }
  }

  method AddLayout(src: Source, entries: seq<Entry>, n: nat, ids: seq<U32>, layouts: seq<Layout>)
    returns (longer: seq<Layout>)
    requires ValidSource(src) && n < |entries| && |ids| <= MAX_REFERENCED_IDS
             && LayoutTable(src, entries, n, ids, layouts)
    ensures LayoutTable(src, entries, n + 1, ids, longer)
  {
    var entry := entries[n];
    if entry.itemId !in ids {
      return layouts;
    }
    var found := FindLayout(layouts, entry.itemId);
    if found.None? {
      NewLayoutFits(src, entries, n, ids, layouts);
    }
    hide LayoutTable;
    var layout := BuildLayout(src, entry);
    if found.Some? {
      longer := layouts[found.value := layout];
      UpdateLayout(src, entries, n, ids, layouts, found.value, longer);
    } else if |layouts| < MAX_LAYOUTS {
      longer := layouts + [layout];
      UpdateLayout(src, entries, n, ids, layouts, |layouts|, longer);
    } else {
      longer := layouts;
    }
  }

  lemma {:induction false} NewLayoutFits(src: Source, entries: seq<Entry>, n: nat, ids: seq<U32>, layouts: seq<Layout>)
    requires ValidSource(src) && n < |entries| && |ids| <= MAX_REFERENCED_IDS
             && LayoutTable(src, entries, n, ids, layouts)
    requires entries[n].itemId in ids && FindLayout(layouts, entries[n].itemId).None?
    ensures |layouts| < MAX_LAYOUTS
  {
    DistinctIn(layouts + [Layout(entries[n].itemId, false, 0, [])], ids);
  }
}
