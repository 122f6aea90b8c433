/** The compatibility dump of metadata: a header line, then one line per entry. */
module CompatibilityDump {
  import opened Bytes
  import opened ConsoleText
  import opened Records

  // ----- fields ----------------------------------------------------------------------------------------

  method AppendField(name: string, value: string, out: TextBuffer)
    requires IsName(name) && AllBytes(value)
    modifies out
    ensures out.text == old(out.text) + PrintField(Quoted(name, value))
  {
    out.text := out.text + " " + name + "=\"";
    var _ := out.AppendConsoleEscapedAscii(value, 0);
    out.text := out.text + "\"";
    FieldIsJoined(old(out.text), name, ShownEscaped(value, 0));
  }

  method AppendLimitedField(name: string, value: string, maxBytes: U32, out: TextBuffer)
    requires IsName(name) && AllBytes(value)
    modifies out
    ensures out.text == old(out.text) + PrintField(Limited(name, value, maxBytes))
  {
    out.text := out.text + " " + name + "=\"";
    var _ := out.AppendConsoleEscapedAscii(value, maxBytes);
    out.text := out.text + "\"";
    FieldIsJoined(old(out.text), name, ShownEscaped(value, maxBytes));
  }

  lemma FieldIsJoined(start: string, name: string, value: string)
    ensures start + " " + name + "=\"" + value + "\"" == start + (" " + name + "=" + ("\"" + value + "\""))
  {
    assert "=\"" == "=" + "\"";
    var s := " " + name + "=";
    assert start + " " + name + "=\"" == start + s + "\"";
    assert start + s + "\"" + value + "\"" == start + (s + ("\"" + value + "\""));
  }

  method AppendU64Field(name: string, value: U64, out: TextBuffer)
    requires IsName(name)
    modifies out
    ensures out.text == old(out.text) + PrintField(Number(name, value))
  {
    out.text := out.text + " " + name + "=";
    out.text := out.text + Decimal(value);
  }

  method AppendBoolField(name: string, value: bool, out: TextBuffer)
    requires IsName(name)
    modifies out
    ensures out.text == old(out.text) + PrintField(Flag(name, value))
  {
    out.text := out.text + " " + name + "=";
    out.text := out.text + if value then "true" else "false";
  }

  /** Appends a list of fields, one after another. */
  method AppendFields(fields: seq<Field>, out: TextBuffer)
    requires AllValid(fields)
    modifies out
    ensures out.text == old(out.text) + PrintFields(fields)
  {
    hide PrintField;
    var i := 0;
    while i < |fields|
      invariant 0 <= i <= |fields| && out.text + PrintFields(fields[i..]) == old(out.text) + PrintFields(fields)
    {
      ghost var before := out.text;
      match fields[i] {
        case Quoted(name, text) => AppendField(name, text, out);
        case Limited(name, text, maxBytes) => AppendLimitedField(name, text, maxBytes, out);
        case Number(name, number) => AppendU64Field(name, number, out);
        case Flag(name, flag) => AppendBoolField(name, flag, out);
      }
      FieldsFrom(fields, i, before);
      hide PrintFields;
      i := i + 1;
    }
    NothingMore(fields, out.text);
  }

  lemma NothingMore(fields: seq<Field>, s: string)
    ensures fields[|fields|..] == [] && PrintFields(fields[|fields|..]) == "" && s + "" == s
  {
  }

  /** Appends fields, if they are wanted, behind those that were appended since `start`. */
  method AppendMore(wanted: bool, fields: seq<Field>, out: TextBuffer, ghost start: string, ghost done: seq<Field>)
    requires AllValid(fields) && AllValid(done) && out.text == start + PrintFields(done)
    modifies out
    ensures var more := done + if wanted then fields else []; AllValid(more) && out.text == start + PrintFields(more)
  {
    if wanted {
      AppendFields(fields, out);
      FieldsJoin(done, fields);
      JoinLater(start, PrintFields(done), PrintFields(fields));
    } else {
      assert done + [] == done;
    }
    hide PrintFields;
    hide ValidField;
  }

  lemma FieldsFrom(fields: seq<Field>, i: nat, before: string)
    requires i < |fields| && AllValid(fields)
    ensures before + PrintFields(fields[i..]) == (before + PrintField(fields[i])) + PrintFields(fields[i + 1..])
  {
    hide PrintField;
    assert fields[i..][1..] == fields[i + 1..];
    JoinLater(before, PrintField(fields[i]), PrintFields(fields[i + 1..]));
  }

  // ----- entries --------------------------------------------------------------------------------------------

  datatype DumpOptions = DumpOptions(includeValues: bool, includeOrigins: bool, includeFlags: bool)

  /** Where an entry came from. */
  datatype Origin = Origin(block: U32, order: U32, wireFamily: string, wireCode: U32, wireCount: U32,
                           wireTypeName: string,
                           nameContext: U32, nameVariant: U32)

  datatype EntryFlags = EntryFlags(deleted: bool, dirty: bool, derived: bool, truncated: bool, unreadable: bool,
                                   contextualName: bool)

  /** An exported entry; enumerations are given by the names that are printed for them, the value by its text. */
  datatype ExportItem = ExportItem(name: string, keyKind: string, valueKind: string, elemType: string,
                                   textEncoding: string,
                                   count: U32, value: string, origin: Origin, flags: EntryFlags)

  predicate ValidItem(item: ExportItem) {
    && AllBytes(item.name) && AllBytes(item.keyKind) && AllBytes(item.valueKind) && AllBytes(item.elemType)
    && AllBytes(item.textEncoding) && AllBytes(item.value) && AllBytes(item.origin.wireFamily)
      && AllBytes(item.origin.wireTypeName)
  }

  function EntryHead(item: ExportItem, index: U32): seq<Field> {
    [Number("index", index), Quoted("name", item.name), Quoted("key_kind", item.keyKind),
     Quoted("value_kind", item.valueKind),
     Quoted("elem_type", item.elemType), Quoted("text_encoding", item.textEncoding), Number("count", item.count)]
  }

  function OriginFields(o: Origin): seq<Field> {
    [Number("origin_block", o.block), Number("origin_order", o.order), Quoted("wire_family", o.wireFamily),
     Number("wire_code", o.wireCode), Number("wire_count", o.wireCount), Quoted("wire_type_name", o.wireTypeName),
     Number("name_context", o.nameContext), Number("name_variant", o.nameVariant)]
  }

  predicate AnyFlag(f: EntryFlags) { f.deleted || f.dirty || f.derived || f.truncated || f.unreadable
          || f.contextualName }

  function FlagFields(f: EntryFlags): seq<Field> {
    [Quoted("flags", if AnyFlag(f) then "set" else "none"), Flag("flag_deleted", f.deleted),
     Flag("flag_dirty", f.dirty),
     Flag("flag_derived", f.derived), Flag("flag_truncated", f.truncated), Flag("flag_unreadable", f.unreadable),
     Flag("flag_contextual_name", f.contextualName)]
  }

  /** The line of an entry. */
  function EntryRecord(options: DumpOptions, item: ExportItem, index: U32): Record {
    Record("entry",
           EntryHead(item, index)
           + (if options.includeValues then [Quoted("value", item.value)] else [])
           + (if options.includeOrigins then OriginFields(item.origin) else [])
           + (if options.includeFlags then FlagFields(item.flags) else []))
  }

  lemma EntryNames()
    ensures IsName("entry") && IsName("index") && IsName("name") && IsName("key_kind") && IsName("value_kind")
            && IsName("elem_type")
    ensures IsName("text_encoding") && IsName("count") && IsName("value")
  {
  }

  lemma HeadIsValid(item: ExportItem, index: U32)
    requires ValidItem(item)
    ensures AllValid(EntryHead(item, index)) && AllValid([Quoted("value", item.value)]) && IsName("entry")
  {
    EntryNames();
    hide IsName;
    hide AllBytes;
  }

  lemma OriginNames()
    ensures IsName("origin_block") && IsName("origin_order") && IsName("wire_family") && IsName("wire_code")
            && IsName("wire_count")
    ensures IsName("wire_type_name") && IsName("name_context") && IsName("name_variant")
  {
  }

  lemma OriginIsValid(o: Origin)
    requires AllBytes(o.wireFamily) && AllBytes(o.wireTypeName)
    ensures AllValid(OriginFields(o))
  {
    OriginNames();
    hide IsName;
    hide AllBytes;
  }

  lemma FlagNames()
    ensures IsName("flags") && IsName("flag_deleted") && IsName("flag_dirty") && IsName("flag_derived")
            && IsName("flag_truncated")
    ensures IsName("flag_unreadable") && IsName("flag_contextual_name") && AllBytes("set") && AllBytes("none")
  {
  }

  lemma FlagsAreValid(f: EntryFlags)
    ensures AllValid(FlagFields(f))
  {
    FlagNames();
    hide IsName;
    hide AllBytes;
  }

  lemma EntryIsValid(options: DumpOptions, item: ExportItem, index: U32)
    requires ValidItem(item)
    ensures ValidRecord(EntryRecord(options, item, index))
  {
    HeadIsValid(item, index);
    OriginIsValid(item.origin);
    FlagsAreValid(item.flags);
    hide EntryHead;
    hide OriginFields;
    hide FlagFields;
    hide ValidField;
    hide IsName;
  }

  lemma {:induction false} FieldsJoin(a: seq<Field>, b: seq<Field>)
    requires AllValid(a) && AllValid(b)
    ensures PrintFields(a + b) == PrintFields(a) + PrintFields(b)
  {
    hide PrintField;
    hide ValidField;
    if a == [] {
      assert a + b == b && PrintFields(a) == "" && "" + PrintFields(b) == PrintFields(b);
    } else {
      FieldsJoin(a[1..], b);
      assert (a + b)[1..] == a[1..] + b;
      JoinLater(PrintField(a[0]), PrintFields(a[1..]), PrintFields(b));
    }
  }

  /** Numbers the entries it is given, and appends a line for each. */
  class CompatibilityMetadataSink {
    const options: DumpOptions
    const out: TextBuffer
    var emitted: U32

    constructor (options: DumpOptions, out: TextBuffer)
      ensures this.options == options && this.out == out && emitted == 0
    {
      this.options, this.out, emitted := options, out, 0;
    }

    method OnItem(item: ExportItem)
      requires ValidItem(item)
      modifies this, out
      ensures ValidRecord(EntryRecord(options, item, old(emitted)))
      ensures out.text == old(out.text) + PrintRecord(EntryRecord(options, item, old(emitted)))
      ensures emitted == (old(emitted) + 1) % 0x1_0000_0000
    {
      EntryIsValid(options, item, emitted);
      hide EntryRecord;
      hide AllValid;
      hide IsName;
      hide PrintFields;
      ghost var r := EntryRecord(options, item, emitted);
      WordOfEntry(options, item, emitted);
      out.text := out.text + "entry";
      AppendEntryFields(options, item, emitted, out);
      out.text := out.text + "\n";
      JoinRecord(old(out.text), "entry", PrintFields(r.fields));
      emitted := (emitted + 1) % 0x1_0000_0000;
    }
  }

  lemma WordOfEntry(options: DumpOptions, item: ExportItem, index: U32)
    ensures EntryRecord(options, item, index).word == "entry"
  {
  }

  /** The fields of an entry, group by group. */
  method AppendEntryFields(options: DumpOptions, item: ExportItem, index: U32, out: TextBuffer)
    requires ValidItem(item)
    modifies out
    ensures var fields := EntryRecord(options, item, index).fields;
            && AllValid(fields)
            && out.text == old(out.text) + PrintFields(fields)
  {
    HeadIsValid(item, index);
    OriginIsValid(item.origin);
    FlagsAreValid(item.flags);
    NothingMore([], out.text);
    assert AllValid([]);
    hide EntryHead;
    hide OriginFields;
    hide FlagFields;
    hide AllValid;
    hide IsName;
    hide PrintFields;
    ghost var start, done := out.text, EntryHead(item, index);
    AppendMore(true, EntryHead(item, index), out, start, []);
    assert [] + done == done;
    AppendMore(options.includeValues, [Quoted("value", item.value)], out, start, done);
    done := done + if options.includeValues then [Quoted("value", item.value)] else [];
    AppendMore(options.includeOrigins, OriginFields(item.origin), out, start, done);
    done := done + if options.includeOrigins then OriginFields(item.origin) else [];
    AppendMore(options.includeFlags, FlagFields(item.flags), out, start, done);
  }

  lemma JoinRecord(start: string, word: string, fields: string)
    ensures start + word + fields + "\n" == start + (word + fields + "\n")
  {
  }

  // ----- the dump ---------------------------------------------------------------------------------------------

  const DUMP_VERSION := 1
  const INTEROP_VERSION := 1
  const FLAT_HOST_VERSION := 1

  function HeaderRecord(style: string, namePolicy: string, entryCount: U32, blockCount: U32): Record {
    Record("openmeta.compat.metadata",
           [Number("version", DUMP_VERSION), Number("interop_version", INTEROP_VERSION),
            Number("flat_host_version", FLAT_HOST_VERSION),
            Quoted("style", style), Quoted("name_policy", namePolicy), Number("entry_count", entryCount),
                Number("block_count", blockCount)])
  }

  lemma HeaderNames()
    ensures IsName("openmeta.compat.metadata") && IsName("version") && IsName("interop_version")
            && IsName("flat_host_version")
    ensures IsName("style") && IsName("name_policy") && IsName("entry_count") && IsName("block_count")
  {
  }

  lemma HeaderIsValid(style: string, namePolicy: string, entryCount: U32, blockCount: U32)
    requires AllBytes(style) && AllBytes(namePolicy)
    ensures ValidRecord(HeaderRecord(style, namePolicy, entryCount, blockCount))
  {
    HeaderNames();
    hide IsName;
    hide AllBytes;
  }

  predicate AllValidRecords(rs: seq<Record>) { forall i :: 0 <= i < |rs| ==> ValidRecord(rs[i]) }

  /** The records of a dump: the header, then the entries, numbered from 0. */
  function DumpRecords(options: DumpOptions, header: Record, items: seq<ExportItem>): (r: seq<Record>)
    requires |items| <= U32_MAX
    ensures |r| == |items| + 1 && r[0] == header && forall i :: 0 <= i < |items| ==>
              r[i + 1] == EntryRecord(options, items[i], i)
  {
    [header] + seq(|items|, i requires 0 <= i < |items| => EntryRecord(options, items[i], i))
  }

  lemma DumpIsValid(options: DumpOptions, header: Record, items: seq<ExportItem>)
    requires |items| <= U32_MAX && ValidRecord(header) && forall i :: 0 <= i < |items| ==> ValidItem(items[i])
    ensures AllValidRecords(DumpRecords(options, header, items))
  {
    hide ValidRecord;
    hide EntryRecord;
    hide ValidItem;
    var all := DumpRecords(options, header, items);
    forall i | 0 <= i < |all| ensures ValidRecord(all[i]) {
      if i > 0 {
        EntryIsValid(options, items[i - 1], i - 1);
        assert all[(i - 1) + 1] == EntryRecord(options, items[i - 1], i - 1);
      }
    }
  }

  lemma {:induction false} RecordsJoin(rs: seq<Record>, r: Record)
    requires AllValidRecords(rs) && ValidRecord(r)
    ensures AllValidRecords(rs + [r]) && PrintRecords(rs + [r]) == PrintRecords(rs) + PrintRecord(r)
  {
    hide PrintRecord;
    hide ValidRecord;
    if rs == [] {
      assert (rs + [r])[1..] == [] && rs + [r] == [r];
      assert PrintRecords([r]) == PrintRecord(r) + PrintRecords([]);
      assert PrintRecord(r) + "" == PrintRecord(r) && "" + PrintRecord(r) == PrintRecord(r);
    } else {
      RecordsJoin(rs[1..], r);
      assert (rs + [r])[1..] == rs[1..] + [r];
      JoinLater(PrintRecord(rs[0]), PrintRecords(rs[1..]), PrintRecord(r));
    }
  }

  /** Writes the header and visits the entries. */
  method DumpMetadataCompatibility(options: DumpOptions, style: string, namePolicy: string, blockCount: U32,
                                   items: seq<ExportItem>, out: TextBuffer)
    requires |items| <= U32_MAX && AllBytes(style) && AllBytes(namePolicy) && forall i :: 0 <= i < |items| ==>
               ValidItem(items[i])
    modifies out
    ensures var header := HeaderRecord(style, namePolicy, |items|, blockCount);
            && AllValidRecords(DumpRecords(options, header, items))
            && out.text == PrintRecords(DumpRecords(options, header, items))
  {
    ghost var header := HeaderRecord(style, namePolicy, |items|, blockCount);
    HeaderIsValid(style, namePolicy, |items|, blockCount);
    DumpIsValid(options, header, items);
    AppendHeader(style, namePolicy, |items|, blockCount, out);
    hide ValidRecord;
    hide PrintRecord;
    hide HeaderRecord;
    StartsWithHeader(DumpRecords(options, header, items), header);
    hide PrintRecords;
    hide AllValidRecords;
    EmitItems(options, items, out, header);
  }

  /** Visits the entries after the header. */
  method EmitItems(options: DumpOptions, items: seq<ExportItem>, out: TextBuffer, ghost header: Record)
    requires |items| <= U32_MAX && forall i :: 0 <= i < |items| ==> ValidItem(items[i])
    requires AllValidRecords(DumpRecords(options, header, items))
             && AllValidRecords(DumpRecords(options, header, items)[..1])
    requires out.text == PrintRecords(DumpRecords(options, header, items)[..1])
    modifies out
    ensures out.text == PrintRecords(DumpRecords(options, header, items))
  {
    hide ValidRecord;
    hide ValidItem;
    hide PrintRecord;
    hide PrintRecords;
    hide EntryRecord;
    ghost var all := DumpRecords(options, header, items);
    var sink := new CompatibilityMetadataSink(options, out);
    var i := 0;
    while i < |items|
      invariant 0 <= i <= |items| && sink.out == out && sink.options == options && sink.emitted == i && fresh(sink)
      invariant AllValidRecords(all[..i + 1]) && out.text == PrintRecords(all[..i + 1])
    {
      assert all[i + 1] == EntryRecord(options, items[i], i);
      RecordsJoin(all[..i + 1], all[i + 1]);
      assert all[..i + 2] == all[..i + 1] + [all[i + 1]];
      sink.OnItem(items[i]);
      i := i + 1;
    }
    assert all[..i + 1] == all;
  }

  lemma StartsWithHeader(all: seq<Record>, header: Record)
    requires all != [] && all[0] == header && ValidRecord(header)
    ensures AllValidRecords(all[..1]) && PrintRecords(all[..1]) == PrintRecord(header)
  {
    hide PrintRecord;
    assert all[..1] == [header] && all[..1][1..] == [];
    assert PrintRecord(header) + "" == PrintRecord(header);
  }

  method AppendHeader(style: string, namePolicy: string, entryCount: U32, blockCount: U32, out: TextBuffer)
    requires AllBytes(style) && AllBytes(namePolicy)
             && ValidRecord(HeaderRecord(style, namePolicy, entryCount, blockCount))
    modifies out
    ensures out.text == PrintRecord(HeaderRecord(style, namePolicy, entryCount, blockCount))
  {
    var r := HeaderRecord(style, namePolicy, entryCount, blockCount);
    hide HeaderRecord;
    hide PrintFields;
    out.text := "openmeta.compat.metadata";
    WordOfHeader(style, namePolicy, entryCount, blockCount);
    AppendFields(r.fields, out);
    out.text := out.text + "\n";
  }

  lemma WordOfHeader(style: string, namePolicy: string, entryCount: U32, blockCount: U32)
    ensures HeaderRecord(style, namePolicy, entryCount, blockCount).word == "openmeta.compat.metadata"
  {
  }

  /** A dump parses back: the header and one line per entry, in order, with everything they carry. */
  lemma DumpIsParsed(options: DumpOptions, header: Record, items: seq<ExportItem>)
    requires |items| <= U32_MAX && ValidRecord(header) && forall i :: 0 <= i < |items| ==> ValidItem(items[i])
    ensures AllValidRecords(DumpRecords(options, header, items))
    ensures ParseLines(PrintRecords(DumpRecords(options, header, items)))
            == Some(LinesOf(DumpRecords(options, header, items)))
  {
    DumpIsValid(options, header, items);
    hide ValidRecord;
    hide EntryRecord;
    RecordsAreParsed(DumpRecords(options, header, items));
  }
}
