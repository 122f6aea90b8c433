/** Item location boxes that are cut short: whatever is missing at the end, the table is refused. */
module IlocCuts {
  import opened Bytes
  import opened ItemData
  import opened Iloc

  // ----- what was parsed was there ------------------------------------------------------------------

  lemma ParsedExtentLength(s: seq<Byte>, p: nat, h: Header)
    requires ValidHeader(h) && ParseExtent(s, p, h).Good?
    ensures var e := ParseExtent(s, p, h);
            e.next == p + |WriteExtent(h, e.value)| && e.next <= |s|
  {
    hide BeBytes;
    hide BeValue;
  }

  lemma {:induction false} ParsedExtentsLength(s: seq<Byte>, p: nat, h: Header, n: nat)
    requires ValidHeader(h) && p <= |s| && ParseExtents(s, p, h, n).Good?
    ensures var es := ParseExtents(s, p, h, n);
            es.next == p + |WriteExtents(h, es.value)| && es.next <= |s|
  {
    if n > 0 {
      ParsedExtentsLength(s, p, h, n - 1);
      var before := ParseExtents(s, p, h, n - 1);
      ParsedExtentLength(s, before.next, h);
      var es := ParseExtents(s, p, h, n);
      assert es.value[..|es.value| - 1] == before.value;
      hide ParseExtent;
      hide WriteExtent;
    }
  }

  lemma ParsedHeadLength(s: seq<Byte>, p: nat, h: Header, item: Item)
    requires ValidHeader(h) && ParseHead(s, p, h).Good?
    ensures ParseHead(s, p, h).next == p + |WriteHead(h, item)| <= |s|
  {
    WidthsOfVersion(h, item.id);
    WidthsOfVersion(h, item.constructionMethod);
    hide BeBytes;
    hide BeValue;
    hide WriteId;
    hide WriteMethod;
  }

  lemma ParsedItemLength(s: seq<Byte>, p: nat, h: Header)
    requires ValidHeader(h) && p <= |s| && ParseItem(s, p, h).Good?
    ensures var item := ParseItem(s, p, h);
            item.next == p + |WriteItem(h, item.value)| && item.next <= |s|
  {
    var head := ParseHead(s, p, h);
    var item := ParseItem(s, p, h).value;
    ParsedHeadLength(s, p, h, item);
    hide ParseHead;
    hide WriteHead;
    ParsedExtentsLength(s, head.next, h, head.value.extentCount);
    hide ParseExtents;
    hide WriteExtents;
  }

  lemma {:induction false} ParsedItemsLength(s: seq<Byte>, p: nat, h: Header, n: nat)
    requires ValidHeader(h) && p <= |s| && ParseItems(s, p, h, n).Good?
    ensures var items := ParseItems(s, p, h, n);
            items.next == p + |WriteItems(h, items.value)| && items.next <= |s|
  {
    if n > 0 {
      ParsedItemsLength(s, p, h, n - 1);
      var before := ParseItems(s, p, h, n - 1);
      ParsedItemLength(s, before.next, h);
      var items := ParseItems(s, p, h, n);
      assert items.value[..|items.value| - 1] == before.value;
      hide ParseItem;
      hide WriteItem;
    }
  }

  /** A table that is accepted is there as a whole. */
  lemma ParsedTableLength(s: seq<Byte>, flags: seq<Byte>)
    requires ParseTable(s).Some? && |flags| == 3
    ensures ValidHeader(ParseTable(s).value.header) && |WriteTable(ParseTable(s).value, flags)| <= |s|
  {
    var t := ParseTable(s).value;
    var h := t.header;
    ParsedItemsLength(s, 6 + IdSize(h), h, |t.items|);
    WidthsOfVersion(h, |t.items|);
    hide ParseItems;
    hide WriteItems;
    hide BeBytes;
    hide BeValue;
  }

  // ----- parsing looks ahead no further than it must ------------------------------------------------------

  lemma FieldOfPrefix(s: seq<Byte>, m: nat, p: nat, n: nat)
    requires m <= |s| && n <= 8 && Field(s[..m], p, n).Some?
    ensures Field(s, p, n) == Field(s[..m], p, n)
  {
    assert s[..m][p..p + n] == s[p..p + n];
  }

  lemma ExtentOfPrefix(s: seq<Byte>, m: nat, p: nat, h: Header)
    requires ValidHeader(h) && m <= |s| && ParseExtent(s[..m], p, h).Good?
    ensures ParseExtent(s, p, h) == ParseExtent(s[..m], p, h)
  {
    FieldOfPrefix(s, m, p, h.indexSize);
    FieldOfPrefix(s, m, p + h.indexSize, h.offsetSize);
    FieldOfPrefix(s, m, p + h.indexSize + h.offsetSize, h.lengthSize);
    hide Field;
  }

  lemma {:induction false} ExtentsOfPrefix(s: seq<Byte>, m: nat, p: nat, h: Header, n: nat)
    requires ValidHeader(h) && m <= |s| && ParseExtents(s[..m], p, h, n).Good?
    ensures ParseExtents(s, p, h, n) == ParseExtents(s[..m], p, h, n)
  {
    if n > 0 {
      ExtentsOfPrefix(s, m, p, h, n - 1);
      ExtentOfPrefix(s, m, ParseExtents(s[..m], p, h, n - 1).next, h);
      hide ParseExtent;
    }
  }

  lemma HeadOfPrefix(s: seq<Byte>, m: nat, p: nat, h: Header)
    requires ValidHeader(h) && m <= |s| && ParseHead(s[..m], p, h).Good?
    ensures ParseHead(s, p, h) == ParseHead(s[..m], p, h)
  {
    var p1 := p + IdSize(h);
    var p2 := p1 + MethodSize(h);
    FieldOfPrefix(s, m, p, IdSize(h));
    FieldOfPrefix(s, m, p1, MethodSize(h));
    FieldOfPrefix(s, m, p2, 2);
    FieldOfPrefix(s, m, p2 + 2, h.baseSize);
    FieldOfPrefix(s, m, p2 + 2 + h.baseSize, 2);
    hide Field;
  }

  lemma ItemOfPrefix(s: seq<Byte>, m: nat, p: nat, h: Header)
    requires ValidHeader(h) && m <= |s| && ParseItem(s[..m], p, h).Good?
    ensures ParseItem(s, p, h) == ParseItem(s[..m], p, h)
  {
    HeadOfPrefix(s, m, p, h);
    var head := ParseHead(s[..m], p, h);
    ExtentsOfPrefix(s, m, head.next, h, head.value.extentCount);
    hide ParseHead;
    hide ParseExtents;
  }

  lemma {:induction false} ItemsOfPrefix(s: seq<Byte>, m: nat, p: nat, h: Header, n: nat)
    requires ValidHeader(h) && m <= |s| && ParseItems(s[..m], p, h, n).Good?
    ensures ParseItems(s, p, h, n) == ParseItems(s[..m], p, h, n)
  {
    if n > 0 {
      ItemsOfPrefix(s, m, p, h, n - 1);
      ItemOfPrefix(s, m, ParseItems(s[..m], p, h, n - 1).next, h);
      hide ParseItem;
    }
  }

  /** What is accepted stays what it is, whatever follows. */
  lemma TableOfPrefix(s: seq<Byte>, m: nat)
    requires m <= |s| && ParseTable(s[..m]).Some?
    ensures ParseTable(s) == ParseTable(s[..m])
  {
    var t := ParseTable(s[..m]).value;
    var h := t.header;
    assert ParseHeader(s) == ParseHeader(s[..m]);
    FieldOfPrefix(s, m, 6, IdSize(h));
    ItemsOfPrefix(s, m, 6 + IdSize(h), h, |t.items|);
    hide ParseHeader;
    hide Field;
    hide ParseItems;
  }

  /** A written table from which anything is missing at the end is refused. */
  lemma CutTableIsRefused(t: Table, flags: seq<Byte>, m: nat)
    requires WritableTable(t) && |flags| == 3 && m < |WriteTable(t, flags)|
    ensures ParseTable(WriteTable(t, flags)[..m]) == None
  {
    var s := WriteTable(t, flags);
    ParseInvertsWrite(t, flags, []);
    assert s + [] == s;
    hide ParseTable;
    if ParseTable(s[..m]).Some? {
      TableOfPrefix(s, m);
      ParsedTableLength(s[..m], flags);
      assert false;
    }
  }
}
