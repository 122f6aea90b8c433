/**
 * Reading the entries of a compatibility dump back from its text: every field is found under its own
 * name, and it says what the entry says.
 */
module DumpReader {
  import opened Bytes
  import opened ConsoleText
  import opened Records
  import opened CompatibilityDump

  /** The first value with this name. */
  function Look(values: seq<NamedValue>, name: string): Option<Value> {
    if values == [] then None
    else if values[0].name == name then Some(values[0].value)
    else Look(values[1..], name)
  }

  function TextOf(values: seq<NamedValue>, name: string): Option<string> {
    match Look(values, name) case Some(Text(text)) => Some(text) case _ => None
  }

  function NumberOf(values: seq<NamedValue>, name: string): Option<nat> {
    match Look(values, name) case Some(Natural(number)) => Some(number) case _ => None
  }

  function TruthOf(values: seq<NamedValue>, name: string): Option<bool> {
    match Look(values, name) case Some(Truth(flag)) => Some(flag) case _ => None
  }

  /** What a line says about an entry, field by field; a field that is missing is `None`. */
  datatype EntryView = EntryView(
    word: string, index: Option<nat>, name: Option<string>, keyKind: Option<string>, valueKind: Option<string>,
    elemType: Option<string>, textEncoding: Option<string>, count: Option<nat>, value: Option<string>)

  datatype OriginView = OriginView(
    block: Option<nat>, order: Option<nat>, wireFamily: Option<string>, wireCode: Option<nat>,
    wireCount: Option<nat>, wireTypeName: Option<string>, nameContext: Option<nat>, nameVariant: Option<nat>)

  datatype FlagsView = FlagsView(
    any: Option<string>, deleted: Option<bool>, dirty: Option<bool>, derived: Option<bool>, truncated: Option<bool>,
    unreadable: Option<bool>, contextualName: Option<bool>)

  function ViewEntry(line: Line): EntryView {
    var v := line.values;
    EntryView(line.word, NumberOf(v, "index"), TextOf(v, "name"), TextOf(v, "key_kind"), TextOf(v, "value_kind"),
              TextOf(v, "elem_type"), TextOf(v, "text_encoding"), NumberOf(v, "count"), TextOf(v, "value"))
  }

  function ViewOrigin(line: Line): OriginView {
    var v := line.values;
    OriginView(NumberOf(v, "origin_block"), NumberOf(v, "origin_order"), TextOf(v, "wire_family"),
               NumberOf(v, "wire_code"), NumberOf(v, "wire_count"), TextOf(v, "wire_type_name"),
               NumberOf(v, "name_context"), NumberOf(v, "name_variant"))
  }

  function ViewFlags(line: Line): FlagsView {
    var v := line.values;
    FlagsView(TextOf(v, "flags"), TruthOf(v, "flag_deleted"), TruthOf(v, "flag_dirty"), TruthOf(v, "flag_derived"),
              TruthOf(v, "flag_truncated"), TruthOf(v, "flag_unreadable"), TruthOf(v, "flag_contextual_name"))
  }

  // ----- what the line of an item must say ---------------------------------------------------------

  /** Of an entry that has any flag, the flags are "set". */
  function FlagsWord(f: EntryFlags): string {
    if f == EntryFlags(false, false, false, false, false, false) then "none" else "set"
  }

  ghost predicate SaysItem(line: Line, options: DumpOptions, item: ExportItem, index: nat) {
    && ViewEntry(line)
       == EntryView("entry", Some(index), Some(item.name), Some(item.keyKind), Some(item.valueKind),
                    Some(item.elemType), Some(item.textEncoding), Some(item.count),
                    if options.includeValues then Some(item.value) else None)
    && ViewOrigin(line)
       == (var o := item.origin;
           if options.includeOrigins then
             OriginView(Some(o.block), Some(o.order), Some(o.wireFamily), Some(o.wireCode), Some(o.wireCount),
                        Some(o.wireTypeName), Some(o.nameContext), Some(o.nameVariant))
           else OriginView(None, None, None, None, None, None, None, None))
    && ViewFlags(line)
       == (var f := item.flags;
           if options.includeFlags then
             FlagsView(Some(FlagsWord(f)), Some(f.deleted), Some(f.dirty), Some(f.derived), Some(f.truncated),
                       Some(f.unreadable), Some(f.contextualName))
           else FlagsView(None, None, None, None, None, None, None))
  }

  // ----- looking up ------------------------------------------------------------------------------------

  /** The names of the fields of an entry: of its head, its value, its origin and its flags. */
  const NAMES: seq<string> := [
    "index", "name", "key_kind", "value_kind", "elem_type", "text_encoding", "count", "value", "origin_block",
    "origin_order", "wire_family", "wire_code", "wire_count", "wire_type_name", "name_context", "name_variant",
    "flags", "flag_deleted", "flag_dirty", "flag_derived", "flag_truncated", "flag_unreadable",
    "flag_contextual_name"]

  /** What tells the names apart: the length, one of the first letters, and the last one. */
  function Signature(s: string): (nat, char, char)
    requires s != ""
  {
    (|s|, if |s| > 7 then s[7] else s[0], s[|s| - 1])
  }

  const SIGNATURES: seq<(nat, char, char)> := [
    (5, 'i', 'x'), (4, 'n', 'e'), (8, 'd', 'd'), (10, 'i', 'd'), (9, 'p', 'e'), (13, 'c', 'g'), (5, 'c', 't'),
    (5, 'v', 'e'), (12, 'b', 'k'), (12, 'o', 'r'), (11, 'm', 'y'), (9, 'd', 'e'), (10, 'u', 't'), (14, 'p', 'e'),
    (12, 'n', 't'), (12, 'r', 't'), (5, 'f', 's'), (12, 'l', 'd'), (10, 'r', 'y'), (12, 'r', 'd'), (14, 'u', 'd'),
    (15, 'r', 'e'), (20, 'n', 'e')]

  lemma SignaturesOfNames()
    ensures |NAMES| == |SIGNATURES| == 23
    ensures forall i :: 0 <= i < |NAMES| ==> NAMES[i] != "" && Signature(NAMES[i]) == SIGNATURES[i]
  {
  }

  lemma SignaturesDiffer(i: nat, j: nat)
    requires i < j < |SIGNATURES|
    ensures SIGNATURES[i] != SIGNATURES[j]
  {
  }

  lemma NamesDiffer(i: nat, j: nat)
    requires i < |NAMES| && j < |NAMES| && i != j
    ensures NAMES[i] != NAMES[j]
  {
    SignaturesOfNames();
    SignaturesDiffer(Min(i, j), Max(i, j));
    hide Signature;
  }

  /** The values have the names number `low`, `low + 1`, ... */
  ghost predicate Named(values: seq<NamedValue>, low: nat) {
    low + |values| <= |NAMES| && forall i :: 0 <= i < |values| ==> values[i].name == NAMES[low + i]
  }

  /** In such a list, a name of its range finds its value, and no other name is found. */
  lemma {:induction false} LookNamed(values: seq<NamedValue>, low: nat, k: nat)
    requires Named(values, low) && k < |NAMES|
    ensures Look(values, NAMES[k])
            == if low <= k < low + |values| then Some(values[k - low].value) else None
  {
    hide NAMES;
    if values != [] {
      if k != low {
        NamesDiffer(low, k);
        NamedRest(values, low);
        LookNamed(values[1..], low + 1, k);
      }
    }
  }

  lemma NamedRest(values: seq<NamedValue>, low: nat)
    requires Named(values, low) && values != []
    ensures Named(values[1..], low + 1)
  {
    hide NAMES;
  }

  lemma {:induction false} LookJoin(a: seq<NamedValue>, b: seq<NamedValue>, name: string)
    ensures Look(a + b, name) == if Look(a, name).Some? then Look(a, name) else Look(b, name)
  {
    if a == [] {
      assert a + b == b;
    } else {
      LookJoin(a[1..], b, name);
      assert (a + b)[1..] == a[1..] + b;
    }
  }

  // ----- the groups of fields ------------------------------------------------------------------------------

  lemma HeadNamed(item: ExportItem, index: U32)
    ensures Named(Meanings(EntryHead(item, index)), 0) && |EntryHead(item, index)| == 7
    ensures Named(Meanings([Quoted("value", item.value)]), 7)
  {
  }

  lemma OriginNamed(o: Origin)
    ensures Named(Meanings(OriginFields(o)), 8) && |OriginFields(o)| == 8
  {
  }

  lemma FlagsNamed(f: EntryFlags)
    ensures Named(Meanings(FlagFields(f)), 16) && |FlagFields(f)| == 7
  {
  }

  lemma MeaningsJoin(a: seq<Field>, b: seq<Field>)
    ensures Meanings(a + b) == Meanings(a) + Meanings(b)
  {
    hide Meaning;
  }

  /** The groups of fields of the line of an item, as they are asked for. */
  function Groups(options: DumpOptions, item: ExportItem, index: U32): (seq<Field>, seq<Field>, seq<Field>, seq<Field>)
  {
    (EntryHead(item, index), if options.includeValues then [Quoted("value", item.value)] else [],
     if options.includeOrigins then OriginFields(item.origin) else [],
     if options.includeFlags then FlagFields(item.flags) else [])
  }

  lemma LineIsGroups(options: DumpOptions, item: ExportItem, index: U32)
    ensures var g := Groups(options, item, index);
            LineOf(EntryRecord(options, item, index))
            == Line("entry", Meanings(g.0) + Meanings(g.1) + Meanings(g.2) + Meanings(g.3))
  {
    hide EntryHead;
    hide OriginFields;
    hide FlagFields;
    hide Meanings;
    var g := Groups(options, item, index);
    MeaningsJoin(g.0 + g.1 + g.2, g.3);
    MeaningsJoin(g.0 + g.1, g.2);
    MeaningsJoin(g.0, g.1);
  }

  /** Looking up a name in the line looks it up in its group. */
  lemma LookInLine(options: DumpOptions, item: ExportItem, index: U32, k: nat)
    requires k < 23
    ensures |NAMES| == 23
    ensures var g := Groups(options, item, index);
            Look(LineOf(EntryRecord(options, item, index)).values, NAMES[k])
            == if k < 7 then Some(Meanings(EntryHead(item, index))[k].value)
               else if k == 7 then (if options.includeValues then Some(Text(item.value)) else None)
               else if k < 16 then
                 (if options.includeOrigins then Some(Meanings(OriginFields(item.origin))[k - 8].value) else None)
               else (if options.includeFlags then Some(Meanings(FlagFields(item.flags))[k - 16].value) else None)
  {
    var g := Groups(options, item, index);
    LineIsGroups(options, item, index);
    HeadNamed(item, index);
    OriginNamed(item.origin);
    FlagsNamed(item.flags);
    assert |NAMES| == 23 && Meanings([Quoted("value", item.value)])[0].value == Text(item.value);
    NothingNamed();
    hide EntryHead;
    hide OriginFields;
    hide FlagFields;
    hide NAMES;
    hide Meaning;
    hide Named;
    var (a, b, c, d) := (Meanings(g.0), Meanings(g.1), Meanings(g.2), Meanings(g.3));
    LookNamed(a, 0, k);
    LookNamed(b, 7, k);
    LookNamed(c, 8, k);
    LookNamed(d, 16, k);
    LookJoin(a + b + c, d, NAMES[k]);
    LookJoin(a + b, c, NAMES[k]);
    LookJoin(a, b, NAMES[k]);
    hide Look;
    hide LineOf;
    hide EntryRecord;
  }

  lemma NothingNamed()
    ensures Meanings([]) == [] && Named([], 7) && Named([], 8) && Named([], 16)
  {
  }

  // ----- reading an entry ----------------------------------------------------------------------------------

  /** What the fields of the groups mean, in their order. */
  function HeadValues(item: ExportItem, index: U32): seq<Value> {
    [Natural(index), Text(item.name), Text(item.keyKind), Text(item.valueKind), Text(item.elemType),
     Text(item.textEncoding), Natural(item.count), Text(item.value)]
  }

  function OriginValues(o: Origin): seq<Value> {
    [Natural(o.block), Natural(o.order), Text(o.wireFamily), Natural(o.wireCode), Natural(o.wireCount),
     Text(o.wireTypeName), Natural(o.nameContext), Natural(o.nameVariant)]
  }

  function FlagValues(f: EntryFlags): seq<Value> {
    [Text(FlagsWord(f)), Truth(f.deleted), Truth(f.dirty), Truth(f.derived), Truth(f.truncated), Truth(f.unreadable),
     Truth(f.contextualName)]
  }

  lemma GroupValues(item: ExportItem, index: U32)
    ensures |EntryHead(item, index)| == 7 && |OriginFields(item.origin)| == 8 && |FlagFields(item.flags)| == 7
    ensures forall k :: 0 <= k < 7 ==> Meanings(EntryHead(item, index))[k].value == HeadValues(item, index)[k]
    ensures forall k :: 0 <= k < 8 ==> Meanings(OriginFields(item.origin))[k].value == OriginValues(item.origin)[k]
    ensures forall k :: 0 <= k < 7 ==> Meanings(FlagFields(item.flags))[k].value == FlagValues(item.flags)[k]
  {
  }

  lemma LookByName(options: DumpOptions, item: ExportItem, index: U32, k: nat, name: string)
    requires k < |NAMES| == 23 && NAMES[k] == name
    ensures Look(LineOf(EntryRecord(options, item, index)).values, name)
            == if k < 8 then (if k < 7 || options.includeValues then Some(HeadValues(item, index)[k]) else None)
               else if k < 16 then (if options.includeOrigins then Some(OriginValues(item.origin)[k - 8]) else None)
               else (if options.includeFlags then Some(FlagValues(item.flags)[k - 16]) else None)
  {
    GroupValues(item, index);
    LookInLine(options, item, index, k);
    hide Look;
    hide EntryRecord;
    hide LineOf;
    hide NAMES;
    hide Meanings;
    hide EntryHead;
    hide OriginFields;
    hide FlagFields;
  }

  lemma HeadNames()
    ensures |NAMES| == 23
    ensures NAMES[0] == "index"
    ensures NAMES[1] == "name"
    ensures NAMES[2] == "key_kind"
    ensures NAMES[3] == "value_kind"
    ensures NAMES[4] == "elem_type"
    ensures NAMES[5] == "text_encoding"
    ensures NAMES[6] == "count"
    ensures NAMES[7] == "value"
  {
  }

  lemma OriginNames()
    ensures |NAMES| == 23
    ensures NAMES[8] == "origin_block"
    ensures NAMES[9] == "origin_order"
    ensures NAMES[10] == "wire_family"
    ensures NAMES[11] == "wire_code"
    ensures NAMES[12] == "wire_count"
    ensures NAMES[13] == "wire_type_name"
    ensures NAMES[14] == "name_context"
    ensures NAMES[15] == "name_variant"
  {
  }

  lemma FlagNames()
    ensures |NAMES| == 23
    ensures NAMES[16] == "flags"
    ensures NAMES[17] == "flag_deleted"
    ensures NAMES[18] == "flag_dirty"
    ensures NAMES[19] == "flag_derived"
    ensures NAMES[20] == "flag_truncated"
    ensures NAMES[21] == "flag_unreadable"
    ensures NAMES[22] == "flag_contextual_name"
  {
  }

  lemma HeadIsRead(options: DumpOptions, item: ExportItem, index: U32)
    ensures ViewEntry(LineOf(EntryRecord(options, item, index)))
            == EntryView("entry", Some(index), Some(item.name), Some(item.keyKind), Some(item.valueKind),
                         Some(item.elemType), Some(item.textEncoding), Some(item.count),
                         if options.includeValues then Some(item.value) else None)
  {
    HeadNames();
    LineIsGroups(options, item, index);
    assert LineOf(EntryRecord(options, item, index)).word == "entry";
    hide NAMES;
    hide Look;
    hide EntryRecord;
    hide LineOf;
    hide Groups;
    hide Meanings;
    LookByName(options, item, index, 0, "index");
    LookByName(options, item, index, 1, "name");
    LookByName(options, item, index, 2, "key_kind");
    LookByName(options, item, index, 3, "value_kind");
    LookByName(options, item, index, 4, "elem_type");
    LookByName(options, item, index, 5, "text_encoding");
    LookByName(options, item, index, 6, "count");
    LookByName(options, item, index, 7, "value");
  }

  lemma OriginIsRead(options: DumpOptions, item: ExportItem, index: U32)
    ensures ViewOrigin(LineOf(EntryRecord(options, item, index)))
            == (var o := item.origin;
                if options.includeOrigins then
                  OriginView(Some(o.block), Some(o.order), Some(o.wireFamily), Some(o.wireCode), Some(o.wireCount),
                             Some(o.wireTypeName), Some(o.nameContext), Some(o.nameVariant))
                else OriginView(None, None, None, None, None, None, None, None))
  {
    OriginNames();
    hide NAMES;
    hide Look;
    hide EntryRecord;
    hide LineOf;
    LookByName(options, item, index, 8, "origin_block");
    LookByName(options, item, index, 9, "origin_order");
    LookByName(options, item, index, 10, "wire_family");
    LookByName(options, item, index, 11, "wire_code");
    LookByName(options, item, index, 12, "wire_count");
    LookByName(options, item, index, 13, "wire_type_name");
    LookByName(options, item, index, 14, "name_context");
    LookByName(options, item, index, 15, "name_variant");
  }

  lemma FlagsAreRead(options: DumpOptions, item: ExportItem, index: U32)
    ensures ViewFlags(LineOf(EntryRecord(options, item, index)))
            == (var f := item.flags;
                if options.includeFlags then
                  FlagsView(Some(FlagsWord(f)), Some(f.deleted), Some(f.dirty), Some(f.derived), Some(f.truncated),
                            Some(f.unreadable), Some(f.contextualName))
                else FlagsView(None, None, None, None, None, None, None))
  {
    FlagNames();
    hide NAMES;
    hide Look;
    hide EntryRecord;
    hide LineOf;
    hide FlagsWord;
    LookByName(options, item, index, 16, "flags");
    LookByName(options, item, index, 17, "flag_deleted");
    LookByName(options, item, index, 18, "flag_dirty");
    LookByName(options, item, index, 19, "flag_derived");
    LookByName(options, item, index, 20, "flag_truncated");
    LookByName(options, item, index, 21, "flag_unreadable");
    LookByName(options, item, index, 22, "flag_contextual_name");
  }

  /** The line of an item says what the item says, and nothing that was not asked for. */
  lemma ItemIsRead(options: DumpOptions, item: ExportItem, index: U32)
    ensures SaysItem(LineOf(EntryRecord(options, item, index)), options, item, index)
  {
    HeadIsRead(options, item, index);
    OriginIsRead(options, item, index);
    FlagsAreRead(options, item, index);
    hide ViewEntry;
    hide ViewOrigin;
    hide ViewFlags;
    hide EntryRecord;
    hide LineOf;
  }

  /** What the header line says. */
  ghost predicate SaysHeader(line: Line, style: string, namePolicy: string, entryCount: nat, blockCount: nat) {
    var v := line.values;
    && line.word == "openmeta.compat.metadata" && NumberOf(v, "version") == Some(1)
    && NumberOf(v, "interop_version") == Some(1) && NumberOf(v, "flat_host_version") == Some(1)
    && TextOf(v, "style") == Some(style) && TextOf(v, "name_policy") == Some(namePolicy)
    && NumberOf(v, "entry_count") == Some(entryCount) && NumberOf(v, "block_count") == Some(blockCount)
  }

  /** Two of the names of the header are as long as each other; they differ in a letter. */
  lemma HeaderIsRead(style: string, namePolicy: string, entryCount: U32, blockCount: U32)
    ensures SaysHeader(LineOf(HeaderRecord(style, namePolicy, entryCount, blockCount)), style, namePolicy,
                       entryCount, blockCount)
  {
    var v := LineOf(HeaderRecord(style, namePolicy, entryCount, blockCount)).values;
    assert |v| == 7 && "name_policy"[0] != "entry_count"[0] && "name_policy"[0] != "block_count"[0];
    assert "entry_count"[0] != "block_count"[0];
    LookPast(v, 0, "version");
    LookPast(v, 1, "interop_version");
    LookPast(v, 2, "flat_host_version");
    LookPast(v, 3, "style");
    LookPast(v, 4, "name_policy");
    LookPast(v, 5, "entry_count");
    LookPast(v, 6, "block_count");
    hide Look;
  }

  lemma {:induction false} LookPast(values: seq<NamedValue>, i: nat, name: string)
    requires i < |values| && values[i].name == name && forall j :: 0 <= j < i ==> values[j].name != name
    ensures Look(values, name) == Some(values[i].value)
  {
    if i > 0 {
      LookPast(values[1..], i - 1, name);
    }
  }

  /** The lines of a dump: what the header says, then what the entries say, in order. */
  ghost predicate SaysDump(lines: seq<Line>, options: DumpOptions, style: string, namePolicy: string,
                           blockCount: nat, items: seq<ExportItem>) {
    && |lines| == |items| + 1 && SaysHeader(lines[0], style, namePolicy, |items|, blockCount)
    && forall i: nat :: i < |items| ==> SaysItem(lines[i + 1], options, items[i], i)
  }

  lemma LinesSayDump(options: DumpOptions, style: string, namePolicy: string, blockCount: U32, items: seq<ExportItem>)
    requires |items| <= U32_MAX
    ensures SaysDump(LinesOf(DumpRecords(options, HeaderRecord(style, namePolicy, |items|, blockCount), items)),
                     options, style, namePolicy, blockCount, items)
  {
    hide *;
    var header := HeaderRecord(style, namePolicy, |items|, blockCount);
    var lines := LinesOf(DumpRecords(options, header, items));
    HeaderIsRead(style, namePolicy, |items|, blockCount);
    forall i: nat | i < |items| ensures i + 1 < |lines| && SaysItem(lines[i + 1], options, items[i], i) {
      LineOfItem(options, header, items, i);
      ItemIsRead(options, items[i], i);
    }
    FirstLine(options, header, items);
    DumpIsSaid(lines, options, style, namePolicy, blockCount, items);
  }

  lemma DumpIsSaid(lines: seq<Line>, options: DumpOptions, style: string, namePolicy: string, blockCount: nat,
                   items: seq<ExportItem>)
    requires |lines| == |items| + 1 && SaysHeader(lines[0], style, namePolicy, |items|, blockCount)
    requires forall i: nat :: i < |items| ==> SaysItem(lines[i + 1], options, items[i], i)
    ensures SaysDump(lines, options, style, namePolicy, blockCount, items)
  {
    hide SaysItem;
    hide SaysHeader;
  }

  lemma FirstLine(options: DumpOptions, header: Record, items: seq<ExportItem>)
    requires |items| <= U32_MAX
    ensures |LinesOf(DumpRecords(options, header, items))| == |items| + 1
    ensures LinesOf(DumpRecords(options, header, items))[0] == LineOf(header)
  {
    hide LineOf;
    hide EntryRecord;
  }

  /** The dump as a whole: its text is parsed, and the lines say what the header and the entries say. */
  lemma DumpSaysItems(options: DumpOptions, style: string, namePolicy: string, blockCount: U32, items: seq<ExportItem>)
    requires |items| <= U32_MAX && AllBytes(style) && AllBytes(namePolicy)
    requires forall i :: 0 <= i < |items| ==> ValidItem(items[i])
    ensures AllValidRecords(DumpRecords(options, HeaderRecord(style, namePolicy, |items|, blockCount), items))
    ensures var records := DumpRecords(options, HeaderRecord(style, namePolicy, |items|, blockCount), items);
            var lines := ParseLines(PrintRecords(records));
            lines.Some? && SaysDump(lines.value, options, style, namePolicy, blockCount, items)
  {
    hide *;
    HeaderIsValid(style, namePolicy, |items|, blockCount);
    DumpIsParsed(options, HeaderRecord(style, namePolicy, |items|, blockCount), items);
    LinesSayDump(options, style, namePolicy, blockCount, items);
  }

  lemma LineOfItem(options: DumpOptions, header: Record, items: seq<ExportItem>, i: nat)
    requires |items| <= U32_MAX && i < |items|
    ensures |LinesOf(DumpRecords(options, header, items))| == |items| + 1
    ensures LinesOf(DumpRecords(options, header, items))[i + 1] == LineOf(EntryRecord(options, items[i], i))
  {
    hide EntryRecord;
    hide LineOf;
  }
}
