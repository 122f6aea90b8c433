/** Written TIFF directories, and the scan of a file that consists of them. */
module TiffFiles {
  import opened Bytes
  import opened Blocks
  import opened BlockSinks
  import opened TiffIfds
  import opened TiffWriter
  import TS = TiffScan

  /** A field with the place of its value, the filling of its entry, and the directories it points to. */
  datatype PlacedField = PlacedField(field: Field, place: nat, pad: seq<Byte>, targets: seq<U64>)

  /** A directory: its fields, and the offset of the next directory, or 0. */
  datatype WrittenDirectory = WrittenDirectory(fields: seq<PlacedField>, next: U64)

  /** The width of the number of entries. */
  function CountWidth(cfg: TiffConfig): nat { if cfg.big then 8 else 2 }

  /** The size of an entry: tag and type, count, and value or offset. */
  function SizeOfEntry(cfg: TiffConfig): nat { if cfg.big then 20 else 12 }

  function EntryPlace(cfg: TiffConfig, at: nat, i: nat): nat { at + CountWidth(cfg) + i * SizeOfEntry(cfg) }

  ghost predicate FieldWritten(cfg: TiffConfig, bytes: seq<Byte>, at: nat, p: PlacedField) {
    EntryWritten(cfg, bytes, at, p.field, p.place, p.pad) && PointsTo(cfg, p.field, p.targets)
  }

  /** The directory stands at `at`: the number of its entries, the entries, and the next directory. */
  ghost predicate DirectoryWritten(cfg: TiffConfig, bytes: seq<Byte>, at: nat, d: WrittenDirectory) {
    var n, w := |d.fields|, CountWidth(cfg);
    var end := EntryPlace(cfg, at, n);
    && |bytes| <= SPAN_MAX && end + Wide(cfg) <= |bytes|
    && n <= (if cfg.big then 0x10000 else U16_MAX) && d.next <= (if cfg.big then U64_MAX else U32_MAX)
    && bytes[at..at + w] == Written(cfg, n, w)
    && (forall i :: 0 <= i < n ==> FieldWritten(cfg, bytes, EntryPlace(cfg, at, i), d.fields[i]))
    && bytes[end..end + Wide(cfg)] == Written(cfg, d.next, Wide(cfg))
  }

  lemma DirectoryIsRead(cfg: TiffConfig, bytes: seq<Byte>, at: nat, d: WrittenDirectory)
    requires DirectoryWritten(cfg, bytes, at, d)
    ensures DirectoryAt(cfg, bytes, at) == Some(Directory(at + CountWidth(cfg), |d.fields|, d.next))
    ensures EntrySize(cfg) == SizeOfEntry(cfg)
  {
    var n, end, w := |d.fields|, EntryPlace(cfg, at, |d.fields|), CountWidth(cfg);
    assert n * SizeOfEntry(cfg) >= 0;
    assert |bytes| <= SPAN_MAX && end + Wide(cfg) <= |bytes| && bytes[at..at + w] == Written(cfg, n, w);
    assert bytes[end..end + Wide(cfg)] == Written(cfg, d.next, Wide(cfg));
    assert n <= (if cfg.big then 0x10000 else U16_MAX) && d.next <= (if cfg.big then U64_MAX else U32_MAX);
    hide DirectoryWritten;
    hide Written;
    hide Read16;
    hide Read32;
    hide Read64;
    ReadsWritten(cfg, bytes, at, n, w);
    ReadsWritten(cfg, bytes, end, d.next, Wide(cfg));
  }

  /** The offsets that the first `n` fields point to. */
  function FieldTargets(d: WrittenDirectory, n: nat): seq<U64>
    requires n <= |d.fields|
  {
    if n == 0 then [] else FieldTargets(d, n - 1) + Nonzero(d.fields[n - 1].targets)
  }

  /** All directories that the directory leads to. */
  function Targets(d: WrittenDirectory): seq<U64> {
    (if d.next == 0 then [] else [d.next]) + FieldTargets(d, |d.fields|)
  }

  lemma {:induction false} FieldsAreFollowed(cfg: TiffConfig, bytes: seq<Byte>, at: nat, d: WrittenDirectory, n: nat)
    requires |bytes| <= SPAN_MAX && DirectoryWritten(cfg, bytes, at, d) && n <= |d.fields|
    ensures EntryPointers(cfg, bytes, Directory(at + CountWidth(cfg), |d.fields|, d.next), n) == FieldTargets(d, n)
  {
    hide *;
    if n == 0 {
      NothingFollowed(cfg, bytes, Directory(at + CountWidth(cfg), |d.fields|, d.next), d);
    } else {
      FieldsAreFollowed(cfg, bytes, at, d, n - 1);
      FieldIsFollowed(cfg, bytes, at, d, Directory(at + CountWidth(cfg), |d.fields|, d.next), n);
      OneMoreTarget(d, n);
    }
  }

  lemma NothingFollowed(cfg: TiffConfig, bytes: seq<Byte>, r: Directory, d: WrittenDirectory)
    requires |bytes| <= SPAN_MAX
    ensures EntryPointers(cfg, bytes, r, 0) == FieldTargets(d, 0)
  {
  }

  lemma FieldIsFollowed(cfg: TiffConfig, bytes: seq<Byte>, at: nat, d: WrittenDirectory, r: Directory, n: nat)
    requires DirectoryWritten(cfg, bytes, at, d) && 0 < n <= |d.fields| && r.entries == at + CountWidth(cfg)
    ensures |bytes| <= SPAN_MAX
    ensures EntryPointers(cfg, bytes, r, n) == EntryPointers(cfg, bytes, r, n - 1) + Nonzero(d.fields[n - 1].targets)
  {
    var place, p := EntryPlace(cfg, at, n - 1), d.fields[n - 1];
    FieldIsWritten(cfg, bytes, at, d, n - 1);
    hide *;
    PointersAreFollowed(cfg, bytes, place, p.field, p.place, p.pad, p.targets);
    OneMoreEntry(cfg, bytes, at, r, n);
  }

  lemma FieldIsWritten(cfg: TiffConfig, bytes: seq<Byte>, at: nat, d: WrittenDirectory, i: nat)
    requires DirectoryWritten(cfg, bytes, at, d) && i < |d.fields|
    ensures |bytes| <= SPAN_MAX
    ensures var p := d.fields[i];
            EntryWritten(cfg, bytes, EntryPlace(cfg, at, i), p.field, p.place, p.pad)
            && PointsTo(cfg, p.field, p.targets)
  {
    hide EntryWritten;
    hide PointsTo;
    hide EntryPlace;
    assert FieldWritten(cfg, bytes, EntryPlace(cfg, at, i), d.fields[i]);
  }

  /** What one more entry adds to the directory as it is read. */
  lemma OneMoreEntry(cfg: TiffConfig, bytes: seq<Byte>, at: nat, r: Directory, n: nat)
    requires n > 0 && |bytes| <= SPAN_MAX && r.entries == at + CountWidth(cfg)
    requires EntryAt(cfg, bytes, EntryPlace(cfg, at, n - 1)).Some?
    ensures var e := EntryAt(cfg, bytes, EntryPlace(cfg, at, n - 1)).value;
            && EntryPointers(cfg, bytes, r, n) == EntryPointers(cfg, bytes, r, n - 1) + Pointers(cfg, bytes, e)
            && ValueBlocks(cfg, bytes, r, n) == ValueBlocks(cfg, bytes, r, n - 1) + EntryBlocks(bytes, e)
  {
    hide EntryAt;
    hide Pointers;
    hide EntryBlocks;
    assert r.entries + (n - 1) * EntrySize(cfg) == EntryPlace(cfg, at, n - 1);
  }

  lemma OneMoreTarget(d: WrittenDirectory, n: nat)
    requires 0 < n <= |d.fields|
    ensures FieldTargets(d, n) == FieldTargets(d, n - 1) + Nonzero(d.fields[n - 1].targets)
  {
    hide Nonzero;
  }

  /** The offsets that a written directory leads to are those that were written. */
  lemma SuccessorsAreTargets(cfg: TiffConfig, bytes: seq<Byte>, at: nat, d: WrittenDirectory)
    requires DirectoryWritten(cfg, bytes, at, d)
    ensures Successors(cfg, bytes, at) == Targets(d)
  {
    DirectoryIsRead(cfg, bytes, at, d);
    FieldsAreFollowed(cfg, bytes, at, d, |d.fields|);
    hide DirectoryAt;
    hide EntryPointers;
    hide FieldTargets;
  }

  /** How many blocks a field has. */
  function BlockCount(f: Field): nat {
    (if IsWholeBox(f.value, BOX_TYPES[0]) || IsWholeBox(f.value, BOX_TYPES[1]) then 1 else 0)
    + (if f.tag in KINDS then 1 else 0)
  }

  /** The blocks are those of the fields, one field after another. */
  ghost predicate AreBlocksOfFields(blocks: seq<Block>, fields: seq<PlacedField>)
    decreases |fields|
  {
    if fields == [] then blocks == []
    else
      var last := fields[|fields| - 1];
      var n := BlockCount(last.field);
      && n <= |blocks| && AreBlocksOfFields(blocks[..|blocks| - n], fields[..|fields| - 1])
      && AreBlocksOf(blocks[|blocks| - n..], last.field, last.place)
  }

  lemma OneMoreField(blocks: seq<Block>, more: seq<Block>, fields: seq<PlacedField>)
    requires fields != [] && AreBlocksOfFields(blocks, fields[..|fields| - 1])
    requires AreBlocksOf(more, fields[|fields| - 1].field, fields[|fields| - 1].place)
    ensures AreBlocksOfFields(blocks + more, fields)
  {
    var all := blocks + more;
    assert |more| == BlockCount(fields[|fields| - 1].field);
    hide AreBlocksOf;
    hide BlockCount;
    assert all[..|blocks|] == blocks && all[|blocks|..] == more;
  }

  lemma {:induction false} FieldsAreFound(cfg: TiffConfig, bytes: seq<Byte>, at: nat, d: WrittenDirectory, n: nat)
    requires DirectoryWritten(cfg, bytes, at, d) && n <= |d.fields|
    ensures AreBlocksOfFields(ValueBlocks(cfg, bytes, Directory(at + CountWidth(cfg), |d.fields|, d.next), n),
                              d.fields[..n])
  {
    if n > 0 {
      var place, p, r := EntryPlace(cfg, at, n - 1), d.fields[n - 1],
          Directory(at + CountWidth(cfg), |d.fields|, d.next);
      FieldIsWritten(cfg, bytes, at, d, n - 1);
      var fields := d.fields[..n];
      assert fields[..n - 1] == d.fields[..n - 1] && fields[n - 1] == p;
      hide *;
      FieldsAreFound(cfg, bytes, at, d, n - 1);
      BlocksAreOfField(cfg, bytes, place, p.field, p.place, p.pad);
      OneMoreEntry(cfg, bytes, at, r, n);
      OneMoreField(ValueBlocks(cfg, bytes, r, n - 1), EntryBlocks(bytes, EntryAt(cfg, bytes, place).value), fields);
    }
  }

  /** The blocks of a written directory are those of its fields, in order. */
  lemma BlocksAreOfFields(cfg: TiffConfig, bytes: seq<Byte>, at: nat, d: WrittenDirectory)
    requires DirectoryWritten(cfg, bytes, at, d)
    ensures AreBlocksOfFields(DirectoryBlocks(cfg, bytes, at), d.fields)
  {
    DirectoryIsRead(cfg, bytes, at, d);
    FieldsAreFound(cfg, bytes, at, d, |d.fields|);
    assert d.fields[..|d.fields|] == d.fields;
    hide DirectoryAt;
    hide ValueBlocks;
    hide AreBlocksOfFields;
  }

  // ----- whole files -----------------------------------------------------------------------------------

  /** The file has a header, and at the offsets in `dirs` the directories are written. */
  ghost predicate FileWritten(cfg: TiffConfig, version: nat, first: U64, dirs: map<U64, WrittenDirectory>,
                              bytes: seq<Byte>) {
    && |bytes| <= SPAN_MAX && (if cfg.big then version == 43 else IsSmallVersion(version) && first <= U32_MAX)
    && WriteHeader(cfg, version, first) <= bytes
    && (forall u :: u in dirs ==> DirectoryWritten(cfg, bytes, u, dirs[u]))
    // no written offset other than 0 leads to anything but a written directory, or out of the file
    && (first != 0 && first < |bytes| ==> first in dirs)
    && (forall u, v :: u in dirs && v in Targets(dirs[u]) && v < |bytes| ==> v in dirs)
  }

  /** From the first directory, written offsets lead through the file to the last entry of the path. */
  ghost predicate WrittenPath(first: U64, dirs: map<U64, WrittenDirectory>, size: nat, path: seq<U64>) {
    && path != [] && path[0] == first && (forall i :: 0 <= i < |path| ==> 0 < path[i] < size && path[i] in dirs)
    && forall i :: 0 < i < |path| ==> path[i] in Targets(dirs[path[i - 1]])
  }

  /** What can be reached in the file is what written offsets lead to. */
  lemma {:induction false} PathIsWritten(cfg: TiffConfig, version: nat, first: U64, dirs: map<U64, WrittenDirectory>,
                                         bytes: seq<Byte>, path: seq<U64>)
    requires FileWritten(cfg, version, first, dirs, bytes)
    ensures Path(cfg, bytes, first, path) <==> WrittenPath(first, dirs, |bytes|, path)
    decreases |path|
  {
    if |path| == 1 {
      ShortPath(cfg, version, first, dirs, bytes, path[0]);
      assert path == [path[0]];
    } else if |path| > 1 {
      var init, n := path[..|path| - 1], |path| - 1;
      PathIsWritten(cfg, version, first, dirs, bytes, init);
      PathMore(cfg, bytes, first, path);
      WrittenPathMore(first, dirs, |bytes|, path);
      if WrittenPath(first, dirs, |bytes|, init) {
        LastInDirs(first, dirs, |bytes|, init);
        assert init[n - 1] == path[n - 1];
        StepIsWritten(cfg, version, first, dirs, bytes, path[n - 1], path[n]);
      }
      hide *;
    }
  }

  lemma ShortPath(cfg: TiffConfig, version: nat, first: U64, dirs: map<U64, WrittenDirectory>, bytes: seq<Byte>,
                  u: U64)
    requires FileWritten(cfg, version, first, dirs, bytes)
    ensures Path(cfg, bytes, first, [u]) <==> WrittenPath(first, dirs, |bytes|, [u])
  {
    hide DirectoryWritten;
    hide WriteHeader;
    hide Targets;
  }

  lemma StepIsWritten(cfg: TiffConfig, version: nat, first: U64, dirs: map<U64, WrittenDirectory>, bytes: seq<Byte>,
                      u: U64, v: U64)
    requires FileWritten(cfg, version, first, dirs, bytes) && u in dirs
    ensures Leads(cfg, bytes, u, v) <==> 0 < v < |bytes| && v in dirs && v in Targets(dirs[u])
  {
    assert DirectoryWritten(cfg, bytes, u, dirs[u]);
    SuccessorsAreTargets(cfg, bytes, u, dirs[u]);
    hide DirectoryWritten;
    hide WriteHeader;
    hide Targets;
    hide Successors;
  }

  lemma PathMore(cfg: TiffConfig, bytes: seq<Byte>, first: U64, path: seq<U64>)
    requires |bytes| <= SPAN_MAX && |path| > 1
    ensures Path(cfg, bytes, first, path)
            <==> Path(cfg, bytes, first, path[..|path| - 1]) && Leads(cfg, bytes, path[|path| - 2], path[|path| - 1])
  {
    hide Leads;
    var init, n := path[..|path| - 1], |path| - 1;
    assert forall i :: 0 <= i < n ==> init[i] == path[i];
    if Path(cfg, bytes, first, init) && Leads(cfg, bytes, path[n - 1], path[n]) {
      forall i | 0 < i < |path| ensures Leads(cfg, bytes, path[i - 1], path[i]) {
        assert i < n ==> Leads(cfg, bytes, init[i - 1], init[i]);
      }
    }
    if Path(cfg, bytes, first, path) {
      forall i | 0 < i < |init| ensures Leads(cfg, bytes, init[i - 1], init[i]) {
        assert Leads(cfg, bytes, path[i - 1], path[i]);
      }
      assert Leads(cfg, bytes, path[n - 1], path[n]);
    }
  }

  lemma WrittenPathMore(first: U64, dirs: map<U64, WrittenDirectory>, size: nat, path: seq<U64>)
    requires |path| > 1
    ensures var n := |path| - 1;
            WrittenPath(first, dirs, size, path)
            <==> WrittenPath(first, dirs, size, path[..n]) && 0 < path[n] < size && path[n] in dirs
                 && path[n - 1] in dirs && path[n] in Targets(dirs[path[n - 1]])
  {
    hide Targets;
    var init, n := path[..|path| - 1], |path| - 1;
    assert forall i :: 0 <= i < n ==> init[i] == path[i];
    if WrittenPath(first, dirs, size, init) && 0 < path[n] < size && path[n] in dirs
       && path[n - 1] in dirs && path[n] in Targets(dirs[path[n - 1]]) {
      forall i | 0 <= i < |path| ensures 0 < path[i] < size && path[i] in dirs {
        assert i < n ==> init[i] in dirs && init[i] > 0;
      }
      forall i | 0 < i < |path| ensures path[i] in Targets(dirs[path[i - 1]]) {
        assert i < n ==> init[i] in Targets(dirs[init[i - 1]]);
      }
    }
    if WrittenPath(first, dirs, size, path) {
      forall i | 0 < i < |init| ensures init[i] in Targets(dirs[init[i - 1]]) {
        assert path[i] in Targets(dirs[path[i - 1]]);
      }
      assert path[n] in Targets(dirs[path[n - 1]]);
    }
  }

  lemma LastInDirs(first: U64, dirs: map<U64, WrittenDirectory>, size: nat, path: seq<U64>)
    requires WrittenPath(first, dirs, size, path)
    ensures path[|path| - 1] in dirs
  {
  }

  /** The directories that can be reached are those that written offsets lead to. */
  lemma ReachableIsWritten(cfg: TiffConfig, version: nat, first: U64, dirs: map<U64, WrittenDirectory>,
                           bytes: seq<Byte>, v: U64)
    requires FileWritten(cfg, version, first, dirs, bytes)
    ensures Reachable(cfg, bytes, first, v)
            <==> exists path: seq<U64> :: WrittenPath(first, dirs, |bytes|, path) && path[|path| - 1] == v
  {
    if Reachable(cfg, bytes, first, v) {
      var path: seq<U64> :| Path(cfg, bytes, first, path) && path[|path| - 1] == v;
      hide *;
      PathIsWritten(cfg, version, first, dirs, bytes, path);
    }
    if path: seq<U64> :| WrittenPath(first, dirs, |bytes|, path) && path[|path| - 1] == v {
      PathIsWritten(cfg, version, first, dirs, bytes, path);
      hide Path;
      hide WrittenPath;
      hide FileWritten;
    }
  }

  /** The blocks of the directories `order`, one directory after another. */
  ghost predicate AreBlocksOfDirectories(blocks: seq<Block>, dirs: map<U64, WrittenDirectory>, order: seq<U64>,
                                         cuts: seq<seq<Block>>) {
    && |cuts| == |order| && blocks == Flat(cuts)
    && forall i :: 0 <= i < |order| ==> order[i] in dirs && AreBlocksOfFields(cuts[i], dirs[order[i]].fields)
  }

  function Flat(cuts: seq<seq<Block>>): seq<Block> {
    if cuts == [] then [] else Flat(cuts[..|cuts| - 1]) + cuts[|cuts| - 1]
  }

  lemma {:induction false} BlocksAreOfDirectories(cfg: TiffConfig, version: nat, first: U64,
                                                  dirs: map<U64, WrittenDirectory>, bytes: seq<Byte>,
                                                  order: seq<U64>)
    returns (cuts: seq<seq<Block>>)
    requires FileWritten(cfg, version, first, dirs, bytes) && forall i :: 0 <= i < |order| ==> order[i] in dirs
    ensures AreBlocksOfDirectories(AllBlocks(cfg, bytes, order), dirs, order, cuts)
  {
    if order == [] {
      cuts := [];
    } else {
      var n := |order| - 1;
      var init, at := order[..n], order[n];
      assert at in dirs && |bytes| <= SPAN_MAX && DirectoryWritten(cfg, bytes, at, dirs[at]);
      assert AllBlocks(cfg, bytes, order) == AllBlocks(cfg, bytes, init) + DirectoryBlocks(cfg, bytes, at);
      hide *;
      cuts := BlocksAreOfDirectories(cfg, version, first, dirs, bytes, init);
      BlocksAreOfFields(cfg, bytes, at, dirs[at]);
      OneMoreDirectory(AllBlocks(cfg, bytes, init), dirs, order, cuts, DirectoryBlocks(cfg, bytes, at));
      cuts := cuts + [DirectoryBlocks(cfg, bytes, at)];
    }
  }

  lemma OneMoreDirectory(blocks: seq<Block>, dirs: map<U64, WrittenDirectory>, order: seq<U64>,
                         cuts: seq<seq<Block>>, more: seq<Block>)
    requires order != [] && AreBlocksOfDirectories(blocks, dirs, order[..|order| - 1], cuts)
    requires order[|order| - 1] in dirs && AreBlocksOfFields(more, dirs[order[|order| - 1]].fields)
    ensures AreBlocksOfDirectories(blocks + more, dirs, order, cuts + [more])
  {
    hide AreBlocksOfFields;
    var n := |order| - 1;
    assert (cuts + [more])[..n] == cuts;
    assert forall i :: 0 <= i < n ==> order[..n][i] == order[i];
  }

  /**
   * Scans a written file. Unless there are too many directories, the file itself is reported, then the
   * blocks of the fields of all directories that written offsets lead to, each directory once.
   */
  method ScanWrittenTiff(bytes: seq<Byte>, out: array<Block>, ghost cfg: TiffConfig, ghost version: nat,
                         ghost first: U64, ghost dirs: map<U64, WrittenDirectory>)
    returns (sink: BlockSink, ghost order: seq<U64>, ghost cuts: seq<seq<Block>>)
    requires FileWritten(cfg, version, first, dirs, bytes)
    modifies out
    ensures sink.Valid() && sink.out == out
    ensures sink.status != ScanStatus.Malformed ==>
              && (forall v :: v in order <==>
                    exists path: seq<U64> :: WrittenPath(first, dirs, |bytes|, path) && path[|path| - 1] == v)
              && (forall i, j :: 0 <= i < j < |order| ==> order[i] != order[j])
              && AreBlocksOfDirectories(Flat(cuts), dirs, order, cuts)
              && sink.Collection() == EmitBlocks(NOTHING, out.Length, [TS.FileBlock(bytes)] + Flat(cuts))
  {
    cuts := [];
    HeaderStartsFile(cfg, version, first, dirs, bytes);
    sink, order := TS.ScanTiff(bytes, out);
    if sink.status != ScanStatus.Malformed {
      forall v ensures v in order <==>
          exists path: seq<U64> :: WrittenPath(first, dirs, |bytes|, path) && path[|path| - 1] == v
      {
        ReachableIsWritten(cfg, version, first, dirs, bytes, v);
      }
      forall i | 0 <= i < |order| ensures order[i] in dirs {
        ReachedIsWritten(first, dirs, |bytes|, order[i]);
      }
      cuts := BlocksAreOfDirectories(cfg, version, first, dirs, bytes, order);
    }
  }

  lemma ReachedIsWritten(first: U64, dirs: map<U64, WrittenDirectory>, size: nat, v: U64)
    requires exists path: seq<U64> :: WrittenPath(first, dirs, size, path) && path[|path| - 1] == v
    ensures v in dirs
  {
  }

  lemma HeaderStartsFile(cfg: TiffConfig, version: nat, first: U64, dirs: map<U64, WrittenDirectory>,
                         bytes: seq<Byte>)
    requires FileWritten(cfg, version, first, dirs, bytes)
    ensures TS.StartOf(bytes) == TS.Begin(cfg, first)
  {
    var header := WriteHeader(cfg, version, first);
    HeaderIsRead(cfg, version, first, bytes[|header|..]);
    assert bytes == header + bytes[|header|..];
  }
}
