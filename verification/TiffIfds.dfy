/** The directories (IFDs) of a TIFF file: their entries, the directories they lead to, and the blocks in them. */
module TiffIfds {
  import opened Bytes
  import opened Blocks

  /** The byte order, and whether offsets have 64 bits. */
  datatype TiffConfig = TiffConfig(little: bool, big: bool)

  lemma {:induction false} LeValueBound(s: seq<Byte>)
    ensures LeValue(s) < Pow256(|s|)
  {
    if s != [] {
      LeValueBound(s[1..]);
    }
  }

  function Number(cfg: TiffConfig, s: seq<Byte>): (v: nat)
    ensures v < Pow256(|s|)
  {
    LeValueBound(s);
    BeValueBound(s);
    if cfg.little then LeValue(s) else BeValue(s)
  }

  function Read16(cfg: TiffConfig, bytes: seq<Byte>, offset: nat): (r: Option<U16>)
    ensures r.Some? <==> CheckedRange(offset, 2, |bytes|)
  {
    assert Pow256(2) == 0x1_0000;
    if CheckedRange(offset, 2, |bytes|) then Some(Number(cfg, bytes[offset..offset + 2])) else None
  }

  function Read32(cfg: TiffConfig, bytes: seq<Byte>, offset: nat): (r: Option<U32>)
    ensures r.Some? <==> CheckedRange(offset, 4, |bytes|)
  {
    assert Pow256(4) == 0x1_0000_0000;
    if CheckedRange(offset, 4, |bytes|) then Some(Number(cfg, bytes[offset..offset + 4])) else None
  }

  function Read64(cfg: TiffConfig, bytes: seq<Byte>, offset: nat): (r: Option<U64>)
    ensures r.Some? <==> CheckedRange(offset, 8, |bytes|)
  {
    assert Pow256(8) == 0x1_0000_0000_0000_0000;
    if CheckedRange(offset, 8, |bytes|) then Some(Number(cfg, bytes[offset..offset + 8])) else None
  }

  function OrZero(n: Option<U64>): U64 { if n.Some? then n.value else 0 }

  function NonZero(n: U64): seq<U64> { if n == 0 then [] else [n] }

  // ----- entries -------------------------------------------------------------------------------------

  /** The size of one value of a field type (section 2 of TIFF 6.0), or 0 for an unknown type. */
  function TypeSize(fieldType: U16): nat {
    if fieldType in {1, 2, 6, 7} then 1
    else if fieldType in {3, 8} then 2
    else if fieldType in {4, 9, 11, 13} then 4
    else if fieldType in {5, 10, 12, 16, 17, 18} then 8
    else 0
  }

  /** An entry whose value lies in the file; `raw` is the value-or-offset field. */
  datatype IfdEntry = IfdEntry(tag: U16, fieldType: U16, count: U64, raw: U64, valueOffset: U64, valueBytes: U64)

  /** The entry at `at`, unless it is of unknown type or its value leaves the file. */
  function EntryAt(cfg: TiffConfig, bytes: seq<Byte>, at: nat): (r: Option<IfdEntry>)
    requires |bytes| <= SPAN_MAX
    ensures r.Some? ==> CheckedRange(r.value.valueOffset, r.value.valueBytes, |bytes|)
  {
    var tag, fieldType := Read16(cfg, bytes, at), Read16(cfg, bytes, at + 2);
    var count := if cfg.big then Read64(cfg, bytes, at + 4) else Read32(cfg, bytes, at + 4);
    var raw := if cfg.big then Read64(cfg, bytes, at + 12) else Read32(cfg, bytes, at + 8);
    if tag.None? || fieldType.None? || count.None? || raw.None? then None
    else
      var unit := TypeSize(fieldType.value);
      var valueBytes := count.value * unit;
      if unit == 0 || valueBytes > U64_MAX then None
      else
        var inField := if cfg.big then at + 12 else at + 8;
        var valueOffset := if valueBytes <= FieldSize(cfg) then inField else raw.value;
        if CheckedRange(valueOffset, valueBytes, |bytes|)
        then Some(IfdEntry(tag.value, fieldType.value, count.value, raw.value, valueOffset, valueBytes)) else None
  }

  function FieldSize(cfg: TiffConfig): nat { if cfg.big then 8 else 4 }

  const EXIF_IFD := 0x8769
  const GPS_IFD := 0x8825
  const INTEROP_IFD := 0xA005
  const SUB_IFDS := 0x014A
  const MAX_SUB_IFDS := 32

  /** Element `j` of an array of directory offsets. */
  function SubIfd(cfg: TiffConfig, bytes: seq<Byte>, e: IfdEntry, j: nat): U64 {
    if !cfg.big || e.fieldType == 4 || e.fieldType == 13 then OrZero(Read32(cfg, bytes, e.valueOffset + j * 4))
    else OrZero(Read64(cfg, bytes, e.valueOffset + j * 8))
  }

  /** The first `n` elements of an array of directory offsets, without zeros. */
  function SubIfds(cfg: TiffConfig, bytes: seq<Byte>, e: IfdEntry, n: nat): seq<U64> {
    if n == 0 then [] else SubIfds(cfg, bytes, e, n - 1) + NonZero(SubIfd(cfg, bytes, e, n - 1))
  }

  function PointerOf(cfg: TiffConfig, bytes: seq<Byte>, e: IfdEntry): U64 {
    if e.valueBytes > FieldSize(cfg) then e.raw
    else
      var field := if cfg.big then Read64(cfg, bytes, e.valueOffset) else Read32(cfg, bytes, e.valueOffset);
      if field.Some? then field.value else e.raw
  }

  /** The directories that an entry points to. */
  function Pointers(cfg: TiffConfig, bytes: seq<Byte>, e: IfdEntry): seq<U64> {
    if e.tag != EXIF_IFD && e.tag != GPS_IFD && e.tag != INTEROP_IFD && e.tag != SUB_IFDS then []
    else if e.tag == SUB_IFDS && e.count > 1 then SubIfds(cfg, bytes, e, Min(e.count, MAX_SUB_IFDS))
    else NonZero(PointerOf(cfg, bytes, e))
  }

  function Valued(e: IfdEntry, kind: BlockKind): Block {
    NO_BLOCK.(format := Tiff, kind := kind, outerOffset := e.valueOffset, outerSize := e.valueBytes,
              dataOffset := e.valueOffset, dataSize := e.valueBytes, id := e.tag)
  }

  /** The value is exactly one box of type `jumb` or `c2pa`. */
  function JumbfValue(bytes: seq<Byte>, e: IfdEntry): seq<Block>
    requires CheckedRange(e.valueOffset, e.valueBytes, |bytes|)
  {
    if e.valueBytes < 8 then []
    else
      var at := e.valueOffset;
      var size32, boxType := BeValue(bytes[at..at + 4]), BeValue(bytes[at + 4..at + 8]);
      var long := size32 == 1 && e.valueBytes >= 16;
      var size := if long then BeValue(bytes[at + 8..at + 16]) else if size32 == 0 then e.valueBytes else size32;
      if size == e.valueBytes && size >= (if long then 16 else 8)
         && (boxType == FourCC('j', 'u', 'm', 'b') || boxType == FourCC('c', '2', 'p', 'a'))
      then [Valued(e, Jumbf).(auxU32 := boxType)] else []
  }

  function TaggedValue(e: IfdEntry): seq<Block> {
    if e.tag == 0x02BC then [Valued(e, Xmp)]
    else if e.tag == 0x83BB then [Valued(e, IptcIim)]
    else if e.tag == 0x8649 then [Valued(e, PhotoshopIrB).(chunking := PsIrB8Bim)]
    else if e.tag == 0x8773 then [Valued(e, Icc)]
    else if e.tag == 0x927C then [Valued(e, MakerNote)]
    else []
  }

  function EntryBlocks(bytes: seq<Byte>, e: IfdEntry): (r: seq<Block>)
    requires CheckedRange(e.valueOffset, e.valueBytes, |bytes|)
    ensures forall i :: 0 <= i < |r| ==> InFile(bytes, r[i])
  {
    JumbfValue(bytes, e) + TaggedValue(e)
  }

  // ----- directories ------------------------------------------------------------------------------------

  /** Where the entries of a directory are, and the offset of the directory after it. */
  datatype Directory = Directory(entries: nat, count: nat, next: U64)

  function EntrySize(cfg: TiffConfig): nat { if cfg.big then 20 else 12 }

  /** The directory at `at`, unless it leaves the file. */
  function DirectoryAt(cfg: TiffConfig, bytes: seq<Byte>, at: nat): (r: Option<Directory>)
    ensures r.Some? ==> r.value.count <= 0x10000
  {
    var width := if cfg.big then 8 else 2;
    var n := if cfg.big then Read64(cfg, bytes, at) else Read16(cfg, bytes, at);
    if n.None? || n.value > 0x10000 then None
    else
      var entries := at + width;
      var nextAt := entries + n.value * EntrySize(cfg);
      var next := if cfg.big then Read64(cfg, bytes, nextAt) else Read32(cfg, bytes, nextAt);
      if next.None? then None else Some(Directory(entries, n.value, next.value))
  }

  /** The directories that the first `n` entries point to. */
  function EntryPointers(cfg: TiffConfig, bytes: seq<Byte>, d: Directory, n: nat): seq<U64>
    requires |bytes| <= SPAN_MAX
  {
    if n == 0 then []
    else
      EntryPointers(cfg, bytes, d, n - 1)
      + match EntryAt(cfg, bytes, d.entries + (n - 1) * EntrySize(cfg)) case None => [] case Some(e) => Pointers(cfg,
          bytes, e)
  }

  /** The blocks in the values of the first `n` entries. */
  function ValueBlocks(cfg: TiffConfig, bytes: seq<Byte>, d: Directory, n: nat): (r: seq<Block>)
    requires |bytes| <= SPAN_MAX
    ensures forall i :: 0 <= i < |r| ==> InFile(bytes, r[i])
  {
    if n == 0 then []
    else
      ValueBlocks(cfg, bytes, d, n - 1)
      + match EntryAt(cfg, bytes, d.entries
              + (n - 1) * EntrySize(cfg)) case None => [] case Some(e) => EntryBlocks(bytes, e)
  }

  /** The nonzero offsets that the directory at `at` leads to: the next directory, then those its entries point to. */
  function Successors(cfg: TiffConfig, bytes: seq<Byte>, at: nat): seq<U64>
    requires |bytes| <= SPAN_MAX
  {
    match DirectoryAt(cfg, bytes, at)
    case None => []
    case Some(d) => NonZero(d.next) + EntryPointers(cfg, bytes, d, d.count)
  }

  function DirectoryBlocks(cfg: TiffConfig, bytes: seq<Byte>, at: nat): (r: seq<Block>)
    requires |bytes| <= SPAN_MAX
    ensures forall i :: 0 <= i < |r| ==> InFile(bytes, r[i])
  {
    match DirectoryAt(cfg, bytes, at)
    case None => []
    case Some(d) => ValueBlocks(cfg, bytes, d, d.count)
  }

  /** The blocks of several directories. */
  function AllBlocks(cfg: TiffConfig, bytes: seq<Byte>, visited: seq<U64>): (r: seq<Block>)
    requires |bytes| <= SPAN_MAX
    ensures forall i :: 0 <= i < |r| ==> InFile(bytes, r[i])
  {
    if visited == [] then []
    else AllBlocks(cfg, bytes, visited[..|visited| - 1]) + DirectoryBlocks(cfg, bytes, visited[|visited| - 1])
  }

  // ----- reachability -----------------------------------------------------------------------------------------

  predicate Inside(bytes: seq<Byte>, at: U64) { 0 < at < |bytes| }

  /** Offset `v` is in the file, and directory `u` leads to it. */
  ghost predicate Leads(cfg: TiffConfig, bytes: seq<Byte>, u: U64, v: U64)
    requires |bytes| <= SPAN_MAX
  {
    Inside(bytes, v) && v in Successors(cfg, bytes, u)
  }

  /** The path goes from directory to directory inside the file, starting at `first`. */
  ghost predicate Path(cfg: TiffConfig, bytes: seq<Byte>, first: U64, path: seq<U64>)
    requires |bytes| <= SPAN_MAX
  {
    && path != [] && path[0] == first && Inside(bytes, first)
    && forall i :: 0 < i < |path| ==> Leads(cfg, bytes, path[i - 1], path[i])
  }

  ghost predicate Reachable(cfg: TiffConfig, bytes: seq<Byte>, first: U64, v: U64)
    requires |bytes| <= SPAN_MAX
  {
    exists path: seq<U64> :: Path(cfg, bytes, first, path) && path[|path| - 1] == v
  }

  lemma ReachableStart(cfg: TiffConfig, bytes: seq<Byte>, first: U64)
    requires |bytes| <= SPAN_MAX && Inside(bytes, first)
    ensures Reachable(cfg, bytes, first, first)
  {
    assert Path(cfg, bytes, first, [first]);
  }

  lemma ReachableStep(cfg: TiffConfig, bytes: seq<Byte>, first: U64, u: U64, v: U64)
    requires |bytes| <= SPAN_MAX && Reachable(cfg, bytes, first, u) && Leads(cfg, bytes, u, v)
    ensures Reachable(cfg, bytes, first, v)
  {
    hide Leads;
    var path: seq<U64> :| Path(cfg, bytes, first, path) && path[|path| - 1] == u;
    var longer := path + [v];
    forall i | 0 < i < |longer| ensures Leads(cfg, bytes, longer[i - 1], longer[i]) {
      assert i < |path| ==> Leads(cfg, bytes, path[i - 1], path[i]);
    }
    assert Path(cfg, bytes, first, longer);
  }

  /** The set contains the start and everything its members lead to. */
  ghost predicate Closed(cfg: TiffConfig, bytes: seq<Byte>, first: U64, visited: seq<U64>)
    requires |bytes| <= SPAN_MAX
  {
    && (Inside(bytes, first) ==> first in visited)
    && forall u, v :: u in visited && Leads(cfg, bytes, u, v) ==> v in visited
  }

  lemma {:induction false} ClosedHoldsPath(cfg: TiffConfig, bytes: seq<Byte>, first: U64, visited: seq<U64>,
                                           path: seq<U64>, i: nat)
    requires |bytes| <= SPAN_MAX && Closed(cfg, bytes, first, visited) && Path(cfg, bytes, first, path) && i < |path|
    ensures path[i] in visited
  {
    hide Leads;
    if i > 0 {
      ClosedHoldsPath(cfg, bytes, first, visited, path, i - 1);
      assert Leads(cfg, bytes, path[i - 1], path[i]);
    }
  }

  lemma ClosedHoldsReachable(cfg: TiffConfig, bytes: seq<Byte>, first: U64, visited: seq<U64>, v: U64)
    requires |bytes| <= SPAN_MAX && Closed(cfg, bytes, first, visited) && Reachable(cfg, bytes, first, v)
    ensures v in visited
  {
    var path: seq<U64> :| Path(cfg, bytes, first, path) && path[|path| - 1] == v;
    ClosedHoldsPath(cfg, bytes, first, visited, path, |path| - 1);
  }
}
