/**
 * The item location box (section 8.11.3 of ISO/IEC 14496-12): how it is written, how it is parsed into
 * the table of the resolver, and that parsing recovers what was written.
 */
module Iloc {
  import opened Bytes
  import opened ItemData

  const MAX_ITEMS := 0x4_0000
  const MAX_EXTENTS_PER_ITEM := 0x4000

  /** The version of the box and the widths of its fields, in bytes. */
  datatype Header = Header(version: nat, offsetSize: nat, lengthSize: nat, baseSize: nat, indexSize: nat)

  predicate ValidHeader(h: Header) {
    && h.version <= 2 && h.offsetSize <= 8 && h.lengthSize <= 8 && h.baseSize <= 8 && h.indexSize <= 8
    && (h.version == 0 ==> h.indexSize == 0)
  }

  /** An entry of the box with all its extents. */
  datatype Item = Item(id: U32, constructionMethod: U16, dataReferenceIndex: U16, baseOffset: U64, extents: seq<Extent>)

  datatype Table = Table(header: Header, items: seq<Item>)

  // ----- reading fields ------------------------------------------------------------------------------

  /** The number in the `n` bytes at `p`; no bytes are 0. */
  function Field(s: seq<Byte>, p: nat, n: nat): (r: Option<U64>)
    requires n <= 8
    ensures r.Some? <==> p + n <= |s|
    ensures r.Some? && n <= 4 ==> r.value <= U32_MAX
    ensures r.Some? && n <= 2 ==> r.value <= U16_MAX
  {
    if p + n > |s| then None
    else
      FieldFits(s[p..p + n]);
      Some(BeValue(s[p..p + n]))
  }

  /** What was parsed, and where it ends. */
  datatype Parsed<T> = Bad | Good(value: T, next: nat)

  function IdSize(h: Header): nat { if h.version < 2 then 2 else 4 }

  function MethodSize(h: Header): nat { if h.version > 0 then 2 else 0 }

  // ----- the grammar -----------------------------------------------------------------------------------

  function ParseExtent(s: seq<Byte>, p: nat, h: Header): Parsed<Extent>
    requires ValidHeader(h)
  {
    var q := p + h.indexSize;
    var r := q + h.offsetSize;
    var index, offset, length := Field(s, p, h.indexSize), Field(s, q, h.offsetSize), Field(s, r, h.lengthSize);
    if length.None? then Bad else Good(Extent(index.value, offset.value, length.value), r + h.lengthSize)
  }

  function ParseExtents(s: seq<Byte>, p: nat, h: Header, n: nat): (r: Parsed<seq<Extent>>)
    requires ValidHeader(h)
    ensures r.Good? ==> |r.value| == n
  {
    if n == 0 then Good([], p)
    else match ParseExtents(s, p, h, n - 1)
      case Bad => Bad
      case Good(before, q) =>
        match ParseExtent(s, q, h)
        case Bad => Bad
        case Good(extent, next) => Good(before + [extent], next)
  }

  /** The fixed fields of an item, with the number of its extents. */
  datatype ItemHead = ItemHead(id: U32, constructionMethod: U16, dataReferenceIndex: U16, baseOffset: U64,
                               extentCount: U16)

  function ParseHead(s: seq<Byte>, p: nat, h: Header): Parsed<ItemHead>
    requires ValidHeader(h)
  {
    var p1 := p + IdSize(h);
    var p2 := p1 + MethodSize(h);
    var p3 := p2 + 2;
    var p4 := p3 + h.baseSize;
    var id, method_, dataReference := Field(s, p, IdSize(h)), Field(s, p1, MethodSize(h)), Field(s, p2, 2);
    var base, count := Field(s, p3, h.baseSize), Field(s, p4, 2);
    if count.None? || count.value > MAX_EXTENTS_PER_ITEM then Bad
    else Good(ItemHead(id.value, method_.value % 16, dataReference.value, base.value, count.value), p4 + 2)
  }

  function ItemOf(head: ItemHead, extents: seq<Extent>): Item {
    Item(head.id, head.constructionMethod, head.dataReferenceIndex, head.baseOffset, extents)
  }

  function ParseItem(s: seq<Byte>, p: nat, h: Header): (r: Parsed<Item>)
    requires ValidHeader(h)
    ensures r.Good? ==> |r.value.extents| <= MAX_EXTENTS_PER_ITEM
  {
    match ParseHead(s, p, h)
    case Bad => Bad
    case Good(head, q) =>
      match ParseExtents(s, q, h, head.extentCount)
      case Bad => Bad
      case Good(extents, next) => Good(ItemOf(head, extents), next)
  }

  function ParseItems(s: seq<Byte>, p: nat, h: Header, n: nat): (r: Parsed<seq<Item>>)
    requires ValidHeader(h)
    ensures r.Good? ==> |r.value| == n && forall i :: 0 <= i < n ==> |r.value[i].extents| <= MAX_EXTENTS_PER_ITEM
  {
    if n == 0 then Good([], p)
    else match ParseItems(s, p, h, n - 1)
      case Bad => Bad
      case Good(before, q) =>
        match ParseItem(s, q, h)
        case Bad => Bad
        case Good(item, next) => Good(before + [item], next)
  }

  /** The version and widths, which take the first 6 bytes. */
  function ParseHeader(s: seq<Byte>): (r: Option<Header>)
    ensures r.Some? ==> ValidHeader(r.value) && |s| >= 8
  {
    if |s| < 8 || s[0] > 2 then None
    else
      var version, a, b := s[0] as nat, s[4] as nat, s[5] as nat;
      var h := Header(version, a / 16, a % 16, b / 16, if version > 0 then b % 16 else 0);
      if h.offsetSize > 8 || h.lengthSize > 8 || h.baseSize > 8 || h.indexSize > 8 then None else Some(h)
  }

  function ParseTable(s: seq<Byte>): (r: Option<Table>)
    ensures r.Some? ==> |r.value.items| <= 0x4_0000 && forall i :: 0 <= i < |r.value.items| ==>
              |r.value.items[i].extents| <= 0x4000
  {
    match ParseHeader(s)
    case None => None
    case Some(h) =>
      var count := Field(s, 6, IdSize(h));
      if count.None? || count.value > MAX_ITEMS then None
      else match ParseItems(s, 6 + IdSize(h), h, count.value)
        case Bad => None
        case Good(items, _) => Some(Table(h, items))
  }

  // ----- what is stored ------------------------------------------------------------------------------------

  datatype Total = Total(bytes: U64, overflow: bool)

  /** The running sum of the lengths; a length that would overflow it is left out and noted. */
  function TotalLength(extents: seq<Extent>): Total {
    if extents == [] then Total(0, false)
    else
      var before, length := TotalLength(extents[..|extents| - 1]), extents[|extents| - 1].length;
      if before.bytes + length > U64_MAX then Total(before.bytes, true)
          else Total(before.bytes + length, before.overflow)
  }

  /** The overflow flag is exact; without it the total is the sum of all lengths. */
  lemma {:induction false} TotalIsSum(extents: seq<Extent>)
    ensures var (total, sum) := (TotalLength(extents), SumLengths(extents, |extents|));
            (total.overflow <==> sum > U64_MAX) && (!total.overflow ==> total.bytes == sum) && total.bytes <= sum
  {
    if extents != [] {
      var init := extents[..|extents| - 1];
      TotalIsSum(init);
      SumOfPrefix(extents, |init|, |init|);
    }
  }

  lemma {:induction false} SumOfPrefix(extents: seq<Extent>, m: nat, n: nat)
    requires n <= m <= |extents|
    ensures SumLengths(extents[..m], n) == SumLengths(extents, n)
  {
    if n > 0 {
      SumOfPrefix(extents, m, n - 1);
    }
  }

  /** The table entry of an item of which `extents` have been read so far. */
  function StoredSoFar(head: ItemHead, extents: seq<Extent>): Location {
    var total := TotalLength(extents);
    Location(head.id, head.constructionMethod, head.dataReferenceIndex, head.baseOffset, head.extentCount,
             extents[..Min(|extents|, MAX_EXTENT_RECORDS)], total.bytes, |extents| > MAX_EXTENT_RECORDS, total.overflow)
  }

  function HeadOf(item: Item): ItemHead
    requires |item.extents| <= MAX_EXTENTS_PER_ITEM
  {
    ItemHead(item.id, item.constructionMethod, item.dataReferenceIndex, item.baseOffset, |item.extents|)
  }

  /** The first 128 items, with the first 16 extents of each. */
  function Digest(items: seq<Item>): (r: seq<Location>)
    requires forall i :: 0 <= i < |items| ==> |items[i].extents| <= MAX_EXTENTS_PER_ITEM
    ensures |r| == Min(|items|, MAX_ITEM_LOCATIONS)
    ensures forall i :: 0 <= i < |r| ==> r[i] == StoredSoFar(HeadOf(items[i]), items[i].extents)
  {
    seq(Min(|items|, MAX_ITEM_LOCATIONS), i requires 0 <= i < Min(|items|, MAX_ITEM_LOCATIONS) =>
      StoredSoFar(HeadOf(items[i]), items[i].extents))
  }

  // ----- writing ----------------------------------------------------------------------------------------------

  function WriteExtent(h: Header, e: Extent): seq<Byte> {
    BeBytes(e.index, h.indexSize) + BeBytes(e.offset, h.offsetSize) + BeBytes(e.length, h.lengthSize)
  }

  function WriteExtents(h: Header, extents: seq<Extent>): seq<Byte> {
    if extents == [] then [] else WriteExtents(h, extents[..|extents| - 1]) + WriteExtent(h, extents[|extents| - 1])
  }

  /** An item id, or the number of items: 32 bits in version 2, 16 bits before. */
  function WriteId(h: Header, id: nat): seq<Byte> { if h.version == 2 then BeBytes(id, 4) else BeBytes(id, 2) }

  /** 12 reserved bits and the construction method, which version 0 does not have. */
  function WriteMethod(h: Header, constructionMethod: nat): seq<Byte> {
    if h.version == 0 then [] else BeBytes(constructionMethod, 2)
  }

  lemma WidthsOfVersion(h: Header, n: nat)
    requires ValidHeader(h)
    ensures WriteId(h, n) == BeBytes(n, IdSize(h)) && WriteMethod(h, n) == BeBytes(n, MethodSize(h))
  {
  }

  function WriteHead(h: Header, item: Item): seq<Byte> {
    WriteId(h, item.id) + WriteMethod(h, item.constructionMethod) + BeBytes(item.dataReferenceIndex, 2)
    + BeBytes(item.baseOffset, h.baseSize) + BeBytes(|item.extents|, 2)
  }

  function WriteItem(h: Header, item: Item): seq<Byte> { WriteHead(h, item) + WriteExtents(h, item.extents) }

  function WriteItems(h: Header, items: seq<Item>): seq<Byte> {
    if items == [] then [] else WriteItems(h, items[..|items| - 1]) + WriteItem(h, items[|items| - 1])
  }

  /** The payload of the box; the flags may be anything. */
  function WriteTable(t: Table, flags: seq<Byte>): seq<Byte>
    requires ValidHeader(t.header) && |flags| == 3
  {
    var h := t.header;
    [h.version as Byte] + flags + [(h.offsetSize * 16 + h.lengthSize) as Byte, (h.baseSize * 16 + h.indexSize) as Byte]
    + WriteId(h, |t.items|) + WriteItems(h, t.items)
  }

  predicate WritableExtent(h: Header, e: Extent) {
    e.index < Pow256(h.indexSize) && e.offset < Pow256(h.offsetSize) && e.length < Pow256(h.lengthSize)
  }

  /** Every field fits its width, and the limits of the parser are kept. */
  predicate WritableItem(h: Header, item: Item) {
    && item.id < Pow256(IdSize(h)) && item.constructionMethod < 16 && (h.version == 0 ==> item.constructionMethod == 0)
    && item.baseOffset < Pow256(h.baseSize) && |item.extents| <= 0x4000
    && forall i :: 0 <= i < |item.extents| ==> WritableExtent(h, item.extents[i])
  }

  predicate WritableTable(t: Table) {
    && ValidHeader(t.header) && |t.items| <= 0x4_0000 && |t.items| < Pow256(IdSize(t.header))
    && forall i :: 0 <= i < |t.items| ==> WritableItem(t.header, t.items[i])
  }

  // ----- parsing inverts writing ----------------------------------------------------------------------------------

  lemma FieldWritten(s: seq<Byte>, p: nat, v: nat, n: nat, rest: seq<Byte>)
    requires n <= 8 && p <= |s| && v < Pow256(n) && s[p..] == BeBytes(v, n) + rest
    ensures Field(s, p, n) == Some(v) && p + n <= |s| && s[p + n..] == rest
  {
    BeRoundTrip(v, n);
    var code := BeBytes(v, n);
    assert forall i :: 0 <= i < n ==> s[p + i] == s[p..][i] == code[i];
    assert s[p..p + n] == code;
    assert s[p + n..] == s[p..][n..] == rest;
  }

  lemma JoinLater(a: seq<Byte>, b: seq<Byte>, c: seq<Byte>)
    ensures (a + b) + c == a + (b + c)
  {
  }

  lemma JoinFiveLater(a: seq<Byte>, b: seq<Byte>, c: seq<Byte>, d: seq<Byte>, e: seq<Byte>, rest: seq<Byte>)
    ensures (a + b + c + d + e) + rest == a + (b + (c + (d + (e + rest))))
  {
    JoinLater(a + b + c + d, e, rest);
    JoinLater(a + b + c, d, e + rest);
    JoinLater(a + b, c, d + (e + rest));
  }

  /** At `p` the bytes of `s` are `code`, then `rest`. */
  ghost predicate StandsAt(s: seq<Byte>, p: nat, code: seq<Byte>, rest: seq<Byte>) {
    p <= |s| && s[p..] == code + rest
  }

  lemma WrittenStands(s: seq<Byte>, p: nat, code: seq<Byte>, rest: seq<Byte>)
    requires p <= |s| && s[p..] == code + rest
    ensures StandsAt(s, p, code, rest)
  {
  }

  lemma NothingLeft(s: seq<Byte>, p: nat, rest: seq<Byte>)
    requires StandsAt(s, p, [], rest)
    ensures p <= |s| && s[p..] == rest
  {
  }

  /** A written extent, field by field. */
  lemma ExtentStands(s: seq<Byte>, p: nat, h: Header, e: Extent, rest: seq<Byte>)
    requires ValidHeader(h) && WritableExtent(h, e) && p <= |s| && s[p..] == WriteExtent(h, e) + rest
    ensures var i, o, l := BeBytes(e.index, h.indexSize), BeBytes(e.offset, h.offsetSize),
            BeBytes(e.length, h.lengthSize);
            StandsAt(s, p, i + (o + (l + [])), rest) && |WriteExtent(h, e)| == h.indexSize + h.offsetSize + h.lengthSize
  {
    hide BeBytes;
    var i, o, l := BeBytes(e.index, h.indexSize), BeBytes(e.offset, h.offsetSize), BeBytes(e.length, h.lengthSize);
    WrittenStands(s, p, WriteExtent(h, e), rest);
    JoinLater(i, o, l);
    assert l + [] == l;
    hide StandsAt;
  }

  lemma NextField(s: seq<Byte>, p: nat, v: nat, n: nat, code: seq<Byte>, rest: seq<Byte>)
    requires n <= 8 && v < Pow256(n) && StandsAt(s, p, BeBytes(v, n) + code, rest)
    ensures Field(s, p, n) == Some(v) && StandsAt(s, p + n, code, rest)
  {
    JoinLater(BeBytes(v, n), code, rest);
    FieldWritten(s, p, v, n, code + rest);
  }

  lemma ExtentWritten(s: seq<Byte>, p: nat, h: Header, e: Extent, rest: seq<Byte>)
    requires ValidHeader(h) && WritableExtent(h, e) && p <= |s| && s[p..] == WriteExtent(h, e) + rest
    ensures var next := p + |WriteExtent(h, e)|;
            ParseExtent(s, p, h) == Good(e, next) && next <= |s| && s[next..] == rest
  {
    hide Field;
    hide StandsAt;
    var i, o, l := BeBytes(e.index, h.indexSize), BeBytes(e.offset, h.offsetSize), BeBytes(e.length, h.lengthSize);
    ExtentStands(s, p, h, e, rest);
    NextField(s, p, e.index, h.indexSize, o + (l + []), rest);
    NextField(s, p + h.indexSize, e.offset, h.offsetSize, l + [], rest);
    NextField(s, p + h.indexSize + h.offsetSize, e.length, h.lengthSize, [], rest);
    NothingLeft(s, p + h.indexSize + h.offsetSize + h.lengthSize, rest);
    hide BeBytes;
    hide WriteExtent;
  }

  lemma {:induction false} ExtentsWritten(s: seq<Byte>, p: nat, h: Header, extents: seq<Extent>, rest: seq<Byte>)
    requires ValidHeader(h) && (forall i :: 0 <= i < |extents| ==> WritableExtent(h, extents[i]))
    requires p <= |s| && s[p..] == WriteExtents(h, extents) + rest
    ensures var next := p + |WriteExtents(h, extents)|;
            ParseExtents(s, p, h, |extents|) == Good(extents, next) && next <= |s| && s[next..] == rest
  {
    hide ParseExtent;
    hide WriteExtent;
    hide WritableExtent;
    if extents != [] {
      var init, last := extents[..|extents| - 1], extents[|extents| - 1];
      assert init + [last] == extents;
      assert WriteExtents(h, extents) == WriteExtents(h, init) + WriteExtent(h, last);
      JoinLater(WriteExtents(h, init), WriteExtent(h, last), rest);
      hide WriteExtents;
      ExtentsWritten(s, p, h, init, WriteExtent(h, last) + rest);
      ExtentWritten(s, p + |WriteExtents(h, init)|, h, last, rest);
    }
  }

  /** The head of a written item, field by field. */
  lemma HeadStands(s: seq<Byte>, p: nat, h: Header, item: Item, rest: seq<Byte>)
    requires ValidHeader(h) && WritableItem(h, item) && p <= |s| && s[p..] == WriteHead(h, item) + rest
    ensures var n1, n2 := IdSize(h), MethodSize(h);
            var id, m, d := BeBytes(item.id, n1), BeBytes(item.constructionMethod, n2),
                BeBytes(item.dataReferenceIndex, 2);
            var b, c := BeBytes(item.baseOffset, h.baseSize), BeBytes(|item.extents|, 2);
            && StandsAt(s, p, id + (m + (d + (b + (c + [])))), rest)
            && |WriteHead(h, item)| == n1 + n2 + h.baseSize + 4
  {
    hide BeBytes;
    hide WritableExtent;
    var id, m, d := BeBytes(item.id, IdSize(h)), BeBytes(item.constructionMethod, MethodSize(h)),
        BeBytes(item.dataReferenceIndex, 2);
    var b, c := BeBytes(item.baseOffset, h.baseSize), BeBytes(|item.extents|, 2);
    WrittenStands(s, p, WriteHead(h, item), rest);
    JoinFiveLater(id, m, d, b, c, []);
    assert WriteHead(h, item) == (id + m + d + b + c) + [];
    hide StandsAt;
  }

  lemma HeadFromFields(s: seq<Byte>, p: nat, h: Header, item: Item)
    requires ValidHeader(h) && item.constructionMethod < 16 && |item.extents| <= MAX_EXTENTS_PER_ITEM
    requires Field(s, p, IdSize(h)) == Some(item.id)
             && Field(s, p + IdSize(h), MethodSize(h)) == Some(item.constructionMethod)
    requires var q := p + IdSize(h) + MethodSize(h);
             && Field(s, q, 2) == Some(item.dataReferenceIndex) && Field(s, q + 2, h.baseSize) == Some(item.baseOffset)
             && Field(s, q + 2 + h.baseSize, 2) == Some(|item.extents|)
    ensures ParseHead(s, p, h) == Good(HeadOf(item), p + IdSize(h) + MethodSize(h) + h.baseSize + 4)
  {
    hide Field;
  }

  lemma HeadWritten(s: seq<Byte>, p: nat, h: Header, item: Item, rest: seq<Byte>)
    requires ValidHeader(h) && WritableItem(h, item) && p <= |s| && s[p..] == WriteHead(h, item) + rest
    ensures var next := p + |WriteHead(h, item)|;
            ParseHead(s, p, h) == Good(HeadOf(item), next) && next <= |s| && s[next..] == rest
  {
    hide Field;
    hide WritableExtent;
    hide StandsAt;
    assert Pow256(2) == 0x1_0000 && Pow256(0) == 1;
    hide BeBytes;
    hide Pow256;
    var n1, n2 := IdSize(h), MethodSize(h);
    var id, m, d := BeBytes(item.id, n1), BeBytes(item.constructionMethod, n2), BeBytes(item.dataReferenceIndex, 2);
    var b, c := BeBytes(item.baseOffset, h.baseSize), BeBytes(|item.extents|, 2);
    var q := p + n1 + n2;
    HeadStands(s, p, h, item, rest);
    hide *;
    NextField(s, p, item.id, n1, m + (d + (b + (c + []))), rest);
    NextField(s, p + n1, item.constructionMethod, n2, d + (b + (c + [])), rest);
    NextField(s, q, item.dataReferenceIndex, 2, b + (c + []), rest);
    NextField(s, q + 2, item.baseOffset, h.baseSize, c + [], rest);
    NextField(s, q + 2 + h.baseSize, |item.extents|, 2, [], rest);
    NothingLeft(s, q + 4 + h.baseSize, rest);
    HeadFromFields(s, p, h, item);
  }

  lemma ItemWritten(s: seq<Byte>, p: nat, h: Header, item: Item, rest: seq<Byte>)
    requires ValidHeader(h) && WritableItem(h, item) && p <= |s| && s[p..] == WriteItem(h, item) + rest
    ensures var next := p + |WriteItem(h, item)|;
            ParseItem(s, p, h) == Good(item, next) && next <= |s| && s[next..] == rest
  {
    hide ParseHead;
    hide ParseExtents;
    hide WriteHead;
    hide WriteExtents;
    hide WritableExtent;
    JoinLater(WriteHead(h, item), WriteExtents(h, item.extents), rest);
    HeadWritten(s, p, h, item, WriteExtents(h, item.extents) + rest);
    ExtentsWritten(s, p + |WriteHead(h, item)|, h, item.extents, rest);
  }

  lemma {:induction false} ItemsWritten(s: seq<Byte>, p: nat, h: Header, items: seq<Item>, rest: seq<Byte>)
    requires ValidHeader(h) && (forall i :: 0 <= i < |items| ==> WritableItem(h, items[i]))
    requires p <= |s| && s[p..] == WriteItems(h, items) + rest
    ensures var next := p + |WriteItems(h, items)|;
            ParseItems(s, p, h, |items|) == Good(items, next)
  {
    hide ParseItem;
    hide WriteItem;
    hide WritableItem;
    if items != [] {
      var init, last := items[..|items| - 1], items[|items| - 1];
      assert init + [last] == items;
      assert WriteItems(h, items) == WriteItems(h, init) + WriteItem(h, last);
      JoinLater(WriteItems(h, init), WriteItem(h, last), rest);
      hide WriteItems;
      ItemsWritten(s, p, h, init, WriteItem(h, last) + rest);
      SuffixAt(s, p, WriteItems(h, init), WriteItem(h, last) + rest);
      ItemWritten(s, p + |WriteItems(h, init)|, h, last, rest);
    }
  }

  lemma SuffixAt(s: seq<Byte>, p: nat, a: seq<Byte>, b: seq<Byte>)
    requires p <= |s| && s[p..] == a + b
    ensures p + |a| <= |s| && s[p + |a|..] == b
  {
    assert s[p + |a|..] == s[p..][|a|..];
  }

  lemma HeaderWritten(t: Table, flags: seq<Byte>, rest: seq<Byte>)
    requires ValidHeader(t.header) && |flags| == 3
    ensures var s := WriteTable(t, flags) + rest;
            |s| >= 8 && ParseHeader(s) == Some(t.header)
                && s[6..] == BeBytes(|t.items|, IdSize(t.header)) + (WriteItems(t.header, t.items) + rest)
  {
    hide WriteItems;
    hide BeBytes;
    var h, s := t.header, WriteTable(t, flags) + rest;
    var tail := BeBytes(|t.items|, IdSize(h)) + (WriteItems(h, t.items) + rest);
    var a, b := (h.offsetSize * 16 + h.lengthSize) as Byte, (h.baseSize * 16 + h.indexSize) as Byte;
    WidthsOfVersion(h, |t.items|);
    hide WriteId;
    assert s == [h.version as Byte] + flags + [a, b] + tail;
    assert s[0] == h.version as Byte && s[4] == a && s[5] == b;
  }

  /** Whatever follows the table, parsing it recovers the table. */
  lemma ParseInvertsWrite(t: Table, flags: seq<Byte>, rest: seq<Byte>)
    requires WritableTable(t) && |flags| == 3
    ensures ParseTable(WriteTable(t, flags) + rest) == Some(t)
  {
    var h, s := t.header, WriteTable(t, flags) + rest;
    HeaderWritten(t, flags, rest);
    hide ParseHeader;
    hide WriteTable;
    hide WritableItem;
    hide WriteItems;
    hide ParseItems;
    hide Field;
    hide BeBytes;
    FieldWritten(s, 6, |t.items|, IdSize(h), WriteItems(h, t.items) + rest);
    ItemsWritten(s, 6 + IdSize(h), h, t.items, rest);
  }
}
