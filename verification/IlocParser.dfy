/** The parser of the item location box, which fills the table of the resolver step by step. */
module IlocParser {
  import opened Bytes
  import opened ItemData
  import opened Iloc

  class LocationTable {
    var haveSizes: bool
    var header: Header
    var total: U32
    var truncated: bool
    var locations: seq<Location>

    constructor ()
      ensures Empty()
    {
      haveSizes, header, total, truncated, locations := false, Header(0, 0, 0, 0, 0), 0, false, [];
    }

    ghost predicate Empty()
      reads this
    {
      !haveSizes && total == 0 && !truncated && locations == []
    }

    /** The items read so far, in the form they are stored. */
    ghost predicate HoldsItems(items: seq<Item>)
      requires forall i :: 0 <= i < |items| ==> |items[i].extents| <= MAX_EXTENTS_PER_ITEM
      reads this
    {
      total == |items| && truncated == (|items| > MAX_ITEM_LOCATIONS) && locations == Digest(items)
    }

    /** Reads the extents of an item and updates its stored entry, if it has one, after each of them. */
    method CollectExtents(s: seq<Byte>, start: nat, h: Header, head: ItemHead, stored: bool) returns (ok: bool, p: nat)
      requires ValidHeader(h) && head.extentCount <= MAX_EXTENTS_PER_ITEM
      requires stored ==> locations != [] && locations[|locations| - 1] == StoredSoFar(head, [])
      modifies this`locations
      ensures var r := ParseExtents(s, start, h, head.extentCount);
              && (ok <==> r.Good?) && (ok ==> p == r.next)
              && (ok ==> locations == if stored then old(locations)[|old(locations)| - 1 := StoredSoFar(head, r.value)]
                  else old(locations))
    {
      hide ParseExtent;
      hide StoredSoFar;
      hide AddExtent;
      ghost var was, extents: seq<Extent> := locations, [];
      p := start;
      var e := 0;
      while e < head.extentCount
        invariant 0 <= e <= head.extentCount && |extents| == e
        invariant ParseExtents(s, start, h, e) == Good(extents, p)
        invariant stored ==> was != [] && locations == was[|was| - 1 := StoredSoFar(head, extents)]
        invariant !stored ==> locations == was
      {
        var extent := ParseExtent(s, p, h);
        if extent.Bad? {
          BadStaysBad(s, start, h, e + 1, head.extentCount);
          return false, p;
        }
        MoreStored(head, extents, extent.value);
        p := extent.next;
        if stored {
          var k := |locations| - 1;
          locations := locations[k := AddExtent(locations[k], extent.value)];
        }
        extents := extents + [extent.value];
        e := e + 1;
      }
      ok := true;
    }

    /** Reads one item; the first 128 are stored. */
    method CollectItem(s: seq<Byte>, start: nat, h: Header, ghost items: seq<Item>) returns (ok: bool, p: nat)
      requires ValidHeader(h) && |items| < MAX_ITEMS
      requires (forall i :: 0 <= i < |items| ==> |items[i].extents| <= MAX_EXTENTS_PER_ITEM) && HoldsItems(items)
      modifies this
      ensures haveSizes == old(haveSizes) && header == old(header)
      ensures var r := ParseItem(s, start, h);
              && (ok <==> r.Good?) && (ok ==> p == r.next && HoldsItems(items + [r.value]))
    {
      hide ParseHead;
      hide ParseExtents;
      hide StoredSoFar;
      hide Digest;
      p := start;
      var head := ParseHead(s, p, h);
      HeadIsSmall(s, p, h);
      if head.Bad? {
        return false, p;
      }
      p := head.next;
      if total == U32_MAX {
        return false, p;
      }
      total := total + 1;
      var stored := |locations| < MAX_ITEM_LOCATIONS;
      if stored {
        locations := locations + [StoredSoFar(head.value, [])];
      } else {
        truncated := true;
      }
      ok, p := CollectExtents(s, p, h, head.value, stored);
      if ok {
        DigestMore(items, ItemOf(head.value, ParseExtents(s, head.next, h, head.value.extentCount).value));
      }
    }

    method CollectItems(s: seq<Byte>, start: nat, h: Header, count: nat) returns (ok: bool)
      requires ValidHeader(h) && count <= MAX_ITEMS && HoldsItems([])
      modifies this
      ensures haveSizes == old(haveSizes) && header == old(header)
      ensures ok <==> ParseItems(s, start, h, count).Good?
      ensures ok ==> HoldsItems(ParseItems(s, start, h, count).value)
    {
      hide ParseItem;
      hide HoldsItems;
      var p: nat := start;
      ghost var items: seq<Item> := [];
      var i: nat := 0;
      while i < count
        invariant i <= count && |items| == i && haveSizes == old(haveSizes) && header == old(header)
        invariant forall k :: 0 <= k < |items| ==> |items[k].extents| <= MAX_EXTENTS_PER_ITEM
        invariant HoldsItems(items) && ParseItems(s, start, h, i) == Good(items, p)
      {
        ghost var item := ParseItem(s, p, h);
        ok, p := CollectItem(s, p, h, items);
        if !ok {
          BadItemsStayBad(s, start, h, i + 1, count);
          return;
        }
        items := items + [item.value];
        i := i + 1;
      }
      ok := true;
    }

    /** Parses the payload of the box. */
    method CollectItemLocations(s: seq<Byte>) returns (ok: bool)
      requires Empty()
      modifies this
      ensures ok <==> ParseTable(s).Some?
      ensures ok ==> haveSizes && header == ParseTable(s).value.header && HoldsItems(ParseTable(s).value.items)
    {
      assert HoldsItems([]);
      hide HoldsItems;
      hide ParseItems;
      var parsed := ParseHeader(s);
      if parsed.None? {
        return false;
      }
      var h := parsed.value;
      var count := Field(s, 6, IdSize(h));
      if count.None? || count.value > MAX_ITEMS {
        return false;
      }
      haveSizes, header := true, h;
      ok := CollectItems(s, 6 + IdSize(h), h, count.value);
    }
  }

  /** A stored entry after one more extent. */
  function AddExtent(loc: Location, e: Extent): Location {
    var fits := e.length <= U64_MAX - loc.totalExtentBytes;
    var room := |loc.extents| < MAX_EXTENT_RECORDS;
    loc.(totalExtentBytes := if fits then loc.totalExtentBytes + e.length else loc.totalExtentBytes,
         lengthOverflow := loc.lengthOverflow || !fits,
         extents := if room then loc.extents + [e] else loc.extents,
         extentTruncated := loc.extentTruncated || !room)
  }

  lemma HeadIsSmall(s: seq<Byte>, p: nat, h: Header)
    requires ValidHeader(h)
    ensures ParseHead(s, p, h).Good? ==> ParseHead(s, p, h).value.extentCount <= MAX_EXTENTS_PER_ITEM
  {
  }

  lemma MoreStored(head: ItemHead, extents: seq<Extent>, e: Extent)
    ensures StoredSoFar(head, extents + [e]) == AddExtent(StoredSoFar(head, extents), e)
  {
    var more := extents + [e];
    assert more[..|extents|] == extents;
    assert |extents| >= MAX_EXTENT_RECORDS ==> more[..MAX_EXTENT_RECORDS] == extents[..MAX_EXTENT_RECORDS];
    assert |extents| < MAX_EXTENT_RECORDS ==> more[..|more|] == more && extents[..|extents|] == extents;
  }

  lemma {:induction false} BadStaysBad(s: seq<Byte>, p: nat, h: Header, m: nat, n: nat)
    requires ValidHeader(h) && m <= n && ParseExtents(s, p, h, m).Bad?
    ensures ParseExtents(s, p, h, n).Bad?
  {
    if m < n {
      BadStaysBad(s, p, h, m, n - 1);
    }
  }

  lemma {:induction false} BadItemsStayBad(s: seq<Byte>, p: nat, h: Header, m: nat, n: nat)
    requires ValidHeader(h) && m <= n && ParseItems(s, p, h, m).Bad?
    ensures ParseItems(s, p, h, n).Bad?
  {
    hide ParseItem;
    if m < n {
      BadItemsStayBad(s, p, h, m, n - 1);
    }
  }

  lemma DigestMore(items: seq<Item>, item: Item)
    requires (forall i :: 0 <= i < |items| ==> |items[i].extents| <= MAX_EXTENTS_PER_ITEM)
             && |item.extents| <= MAX_EXTENTS_PER_ITEM
    ensures Digest(items + [item])
            == if |items| < MAX_ITEM_LOCATIONS then Digest(items) + [StoredSoFar(HeadOf(item), item.extents)]
                else Digest(items)
  {
    hide StoredSoFar;
  }

  /** Checks the box against the file and parses its payload. */
  method CollectFromBox(bytes: seq<Byte>, payloadOffset: nat, payloadEnd: nat) returns (table: Option<LocationTable>)
    ensures table.Some? <==>
              && payloadOffset + 8 <= payloadEnd <= |bytes|
              && ParseTable(bytes[payloadOffset..payloadEnd]).Some?
    ensures table.Some? ==>
              var parsed := ParseTable(bytes[payloadOffset..payloadEnd]).value;
              table.value.header == parsed.header && table.value.HoldsItems(parsed.items)
  {
    if payloadOffset + 8 > payloadEnd || payloadEnd > |bytes| {
      return None;
    }
    var t := new LocationTable();
    var ok := t.CollectItemLocations(bytes[payloadOffset..payloadEnd]);
    table := if ok then Some(t) else None;
  }

  /**
   * What the parser stores of a written table: every item is counted, the first 128 are kept in
   * order, each with its first 16 extents as written, its number of extents, and the sum of all its
   * extent lengths or the overflow flag.
   */
  lemma WrittenIsStored(t: Table, flags: seq<Byte>, rest: seq<Byte>, i: nat)
    requires WritableTable(t) && |flags| == 3 && i < Min(|t.items|, 128)
    ensures ParseTable(WriteTable(t, flags) + rest) == Some(t)
    ensures var item, loc := t.items[i], Digest(t.items)[i];
            var sum := SumLengths(item.extents, |item.extents|);
            && loc.itemId == item.id && loc.constructionMethod == item.constructionMethod
            && loc.dataReferenceIndex == item.dataReferenceIndex && loc.baseOffset == item.baseOffset
            && loc.extentCount == |item.extents|
              && loc.extents == item.extents[..Min(|item.extents|, 16)]
            && (loc.extentTruncated <==> |item.extents| > 16)
            && (loc.lengthOverflow <==> sum > U64_MAX) && (!loc.lengthOverflow ==> loc.totalExtentBytes == sum)
  {
    ParseInvertsWrite(t, flags, rest);
    hide ParseTable;
    hide WriteTable;
    TotalIsSum(t.items[i].extents);
    hide TotalLength;
    hide SumLengths;
  }
}
