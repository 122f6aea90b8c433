/**
 * The line records of the compatibility dump: a word, then fields with quoted, numeric or boolean
 * values. A line that was printed can be parsed back.
 */
module Records {
  import opened Bytes
  import opened ConsoleText

  // ----- words and numbers ------------------------------------------------------------------------------

  predicate NameChar(c: char) { 'a' <= c <= 'z' || '0' <= c <= '9' || c == '_' || c == '.' }

  predicate IsName(s: string) { s != "" && forall i :: 0 <= i < |s| ==> NameChar(s[i]) }

  predicate DigitChar(c: char) { '0' <= c <= '9' }

  /** The decimal digits of a number. */
  function Decimal(n: nat): (s: string)
    ensures s != "" && forall i :: 0 <= i < |s| ==> DigitChar(s[i])
  {
    var last := ['0' + (n % 10) as char];
    if n < 10 then last else Decimal(n / 10) + last
  }

  function DecimalValue(s: string): nat
    requires forall i :: 0 <= i < |s| ==> DigitChar(s[i])
  {
    if s == "" then 0
    else
      assert DigitChar(s[|s| - 1]);
      DecimalValue(s[..|s| - 1]) * 10 + (s[|s| - 1] as int - '0' as int)
  }

  lemma {:induction false} DecimalRoundTrip(n: nat)
    ensures DecimalValue(Decimal(n)) == n
  {
    var s, last := Decimal(n), ['0' + (n % 10) as char];
    if n < 10 {
      assert s[..0] == "";
      assert DecimalValue("") == 0;
    } else {
      DecimalRoundTrip(n / 10);
      assert s[..|s| - 1] == Decimal(n / 10) && s[|s| - 1] == last[0];
    }
  }

  /** How many characters at the front of `s` belong to a word. */
  function NameLength(s: string): (n: nat)
    ensures n <= |s| && (forall i :: 0 <= i < n ==> NameChar(s[i])) && (n < |s| ==> !NameChar(s[n]))
  {
    if s == "" || !NameChar(s[0]) then 0 else 1 + NameLength(s[1..])
  }

  function DigitsLength(s: string): (n: nat)
    ensures n <= |s| && (forall i :: 0 <= i < n ==> DigitChar(s[i])) && (n < |s| ==> !DigitChar(s[n]))
  {
    if s == "" || !DigitChar(s[0]) then 0 else 1 + DigitsLength(s[1..])
  }

  // ----- printing ------------------------------------------------------------------------------------------

  /** A field as it is printed: text in full, text up to a limit, a number, or a truth value. */
  datatype Field =
    | Quoted(name: string, text: string)
    | Limited(name: string, text: string, maxBytes: U32)
    | Number(name: string, number: U64)
    | Flag(name: string, flag: bool)

  predicate ValidField(f: Field) {
    IsName(f.name) && (f.Quoted? || f.Limited? ==> AllBytes(f.text))
  }

  predicate AllValid(fields: seq<Field>) { forall i :: 0 <= i < |fields| ==> ValidField(fields[i]) }

  datatype Record = Record(word: string, fields: seq<Field>)

  predicate ValidRecord(r: Record) {
    IsName(r.word) && AllValid(r.fields)
  }

  function PrintValue(f: Field): string
    requires ValidField(f)
  {
    match f
    case Quoted(_, text) => "\"" + ShownEscaped(text, 0) + "\""
    case Limited(_, text, maxBytes) => "\"" + ShownEscaped(text, maxBytes) + "\""
    case Number(_, number) => Decimal(number)
    case Flag(_, flag) => if flag then "true" else "false"
  }

  function PrintField(f: Field): string
    requires ValidField(f)
  {
    " " + f.name + "=" + PrintValue(f)
  }

  function PrintFields(fields: seq<Field>): string
    requires AllValid(fields)
  {
    if fields == [] then "" else PrintField(fields[0]) + PrintFields(fields[1..])
  }

  function PrintRecord(r: Record): string
    requires ValidRecord(r)
  {
    r.word + PrintFields(r.fields) + "\n"
  }

  function PrintRecords(rs: seq<Record>): string
    requires forall i :: 0 <= i < |rs| ==> ValidRecord(rs[i])
  {
    if rs == [] then "" else PrintRecord(rs[0]) + PrintRecords(rs[1..])
  }

  // ----- parsing -----------------------------------------------------------------------------------------------

  datatype Value = Text(text: string) | Natural(number: nat) | Truth(flag: bool)

  datatype NamedValue = NamedValue(name: string, value: Value)

  datatype Line = Line(word: string, values: seq<NamedValue>)

  datatype Parse<T> = Fail | Success(value: T, rest: string)

  /** The value of a field, which starts with a quote, a digit, or a letter. */
  function ParseValue(s: string): (r: Parse<Value>)
    ensures r.Success? ==> |r.rest| < |s|
  {
    if s == "" then Fail
    else if s[0] == '"' then
      (match QuoteEnd(s[1..])
       case None => Fail
       case Some(n) =>
         match Unescape(s[1..][..n])
         case None => Fail
         case Some(text) => Success(Text(text), s[1..][n + 1..]))
    else if DigitChar(s[0]) then
      var n := DigitsLength(s);
      Success(Natural(DecimalValue(s[..n])), s[n..])
    else if "true" <= s then Success(Truth(true), s[4..])
    else if "false" <= s then Success(Truth(false), s[5..])
    else Fail
  }

  function ParseField(s: string): (r: Parse<NamedValue>)
    requires s != "" && s[0] == ' '
    ensures r.Success? ==> |r.rest| < |s|
  {
    var n := NameLength(s[1..]);
    var after := s[1..][n..];
    if n == 0 || after == "" || after[0] != '=' then Fail
    else match ParseValue(after[1..])
      case Fail => Fail
      case Success(value, rest) => Success(NamedValue(s[1..][..n], value), rest)
  }

  /** Fields up to the end of the line. */
  function ParseFields(s: string): (r: Parse<seq<NamedValue>>)
    ensures r.Success? ==> |r.rest| < |s|
    decreases |s|
  {
    if s == "" then Fail
    else if s[0] == '\n' then Success([], s[1..])
    else if s[0] != ' ' then Fail
    else match ParseField(s)
      case Fail => Fail
      case Success(first, rest) =>
        match ParseFields(rest)
        case Fail => Fail
        case Success(others, end) => Success([first] + others, end)
  }

  function ParseLine(s: string): (r: Parse<Line>)
    ensures r.Success? ==> |r.rest| < |s|
  {
    var n := NameLength(s);
    if n == 0 then Fail
    else match ParseFields(s[n..])
      case Fail => Fail
      case Success(values, rest) => Success(Line(s[..n], values), rest)
  }

  function ParseLines(s: string): Option<seq<Line>>
    decreases |s|
  {
    if s == "" then Some([])
    else match ParseLine(s)
      case Fail => None
      case Success(line, rest) =>
        match ParseLines(rest)
        case None => None
        case Some(lines) => Some([line] + lines)
  }

  // ----- what a record says -----------------------------------------------------------------------------------

  /** The value that a field is meant to carry: a limited text is carried as far as it is shown. */
  function Meaning(f: Field): NamedValue {
    NamedValue(f.name,
               match f
               case Quoted(_, text) => Text(text)
               case Limited(_, text, maxBytes) => Text(Shown(text, maxBytes))
               case Number(_, number) => Natural(number)
               case Flag(_, flag) => Truth(flag))
  }

  function Meanings(fields: seq<Field>): (r: seq<NamedValue>)
    ensures |r| == |fields| && forall i :: 0 <= i < |r| ==> r[i] == Meaning(fields[i])
  {
    seq(|fields|, i requires 0 <= i < |fields| => Meaning(fields[i]))
  }

  function LineOf(r: Record): Line { Line(r.word, Meanings(r.fields)) }

  function LinesOf(rs: seq<Record>): (r: seq<Line>)
    ensures |r| == |rs| && forall i :: 0 <= i < |r| ==> r[i] == LineOf(rs[i])
  {
    seq(|rs|, i requires 0 <= i < |rs| => LineOf(rs[i]))
  }

  // ----- there and back -----------------------------------------------------------------------------------------

  lemma NameLengthAt(name: string, rest: string)
    requires (forall i :: 0 <= i < |name| ==> NameChar(name[i])) && (rest == "" || !NameChar(rest[0]))
    ensures NameLength(name + rest) == |name|
  {
    var s := name + rest;
    assert forall i :: 0 <= i < |name| ==> s[i] == name[i];
    assert rest != "" ==> s[|name|] == rest[0];
  }

  lemma DigitsLengthAt(digits: string, rest: string)
    requires (forall i :: 0 <= i < |digits| ==> DigitChar(digits[i])) && (rest == "" || !DigitChar(rest[0]))
    ensures DigitsLength(digits + rest) == |digits|
  {
    var s := digits + rest;
    assert forall i :: 0 <= i < |digits| ==> s[i] == digits[i];
    assert rest != "" ==> s[|digits|] == rest[0];
  }

  /** After a value comes the next field or the end of the line. */
  predicate EndsValue(rest: string) { rest != "" && (rest[0] == ' ' || rest[0] == '\n') }

  lemma QuotedIsParsed(text: string, maxBytes: U32, rest: string)
    requires AllBytes(text)
    ensures ParseValue("\"" + ShownEscaped(text, maxBytes) + "\"" + rest) == Success(Text(Shown(text, maxBytes)), rest)
  {
    var shown := ShownEscaped(text, maxBytes);
    ShownIsRead(text, maxBytes, rest);
    hide QuoteEnd;
    hide Unescape;
    hide ShownEscaped;
    hide Shown;
    QuotedText(shown, rest);
  }

  lemma QuotedText(shown: string, rest: string)
    ensures var s, inner := "\"" + shown + "\"" + rest, shown + "\"" + rest;
            s != "" && s[0] == '"' && s[1..] == inner && s[1..][..|shown|] == shown && s[1..][|shown| + 1..] == rest
  {
    var s, inner := "\"" + shown + "\"" + rest, shown + "\"" + rest;
    assert s[1..] == inner;
    assert inner[..|shown|] == shown && inner[|shown| + 1..] == rest;
  }

  lemma NumberIsParsed(number: nat, rest: string)
    requires EndsValue(rest)
    ensures ParseValue(Decimal(number) + rest) == Success(Natural(number), rest)
  {
    var digits := Decimal(number);
    var s := digits + rest;
    DigitsLengthAt(digits, rest);
    DecimalRoundTrip(number);
    hide Decimal;
    hide DigitsLength;
    assert s[..|digits|] == digits && s[|digits|..] == rest && s[0] == digits[0];
  }

  lemma TruthIsParsed(flag: bool, rest: string)
    ensures ParseValue((if flag then "true" else "false") + rest) == Success(Truth(flag), rest)
  {
    if flag {
      var s := "true" + rest;
      assert s[..4] == "true" && s[4..] == rest && s[0] == 't';
    } else {
      var s := "false" + rest;
      assert s[..5] == "false" && s[5..] == rest && s[0] == 'f';
      assert s[..4] == "fals";
    }
  }

  lemma ValueIsParsed(f: Field, rest: string)
    requires ValidField(f) && EndsValue(rest)
    ensures ParseValue(PrintValue(f) + rest) == Success(Meaning(f).value, rest)
  {
    hide ParseValue;
    match f {
      case Quoted(_, text) => QuotedIsParsed(text, 0, rest); assert Shown(text, 0) == text;
      case Limited(_, text, maxBytes) => QuotedIsParsed(text, maxBytes, rest);
      case Number(_, number) => NumberIsParsed(number, rest);
      case Flag(_, flag) => TruthIsParsed(flag, rest);
    }
  }

  lemma NamedIsParsed(name: string, printed: string, value: Value, rest: string)
    requires IsName(name) && ParseValue(printed) == Success(value, rest)
    ensures ParseField(" " + name + "=" + printed) == Success(NamedValue(name, value), rest)
  {
    var equation := "=" + printed;
    NameLengthAt(name, equation);
    hide ParseValue;
    hide NameLength;
    var s := " " + name + "=" + printed;
    var tail := s[1..];
    assert tail == name + equation;
    assert tail[..|name|] == name && tail[|name|..] == equation;
    assert equation[1..] == printed;
  }

  lemma FieldIsParsed(f: Field, rest: string)
    requires ValidField(f) && EndsValue(rest)
    ensures PrintField(f)[0] == ' ' && ParseField(PrintField(f) + rest) == Success(Meaning(f), rest)
  {
    ValueIsParsed(f, rest);
    hide PrintValue;
    hide ParseValue;
    NamedIsParsed(f.name, PrintValue(f) + rest, Meaning(f).value, rest);
    hide ParseField;
    JoinLater(" " + f.name + "=", PrintValue(f), rest);
  }

  lemma {:induction false} FieldsAreParsed(fields: seq<Field>, rest: string)
    requires AllValid(fields)
    ensures EndsValue(PrintFields(fields) + "\n" + rest)
    ensures ParseFields(PrintFields(fields) + "\n" + rest) == Success(Meanings(fields), rest)
  {
    hide ValidField;
    hide PrintField;
    hide ParseField;
    hide Meaning;
    var s := PrintFields(fields) + "\n" + rest;
    if fields == [] {
      assert s[0] == '\n' && s[1..] == rest;
    } else {
      var others := PrintFields(fields[1..]) + "\n" + rest;
      FieldsAreParsed(fields[1..], rest);
      FieldIsParsed(fields[0], others);
      assert s == PrintField(fields[0]) + others;
      assert s[0] == ' ';
      assert Meanings(fields) == [Meaning(fields[0])] + Meanings(fields[1..]);
    }
  }

  /** A printed line parses back to what its fields carry, and the parse stops at its end. */
  lemma RecordIsParsed(r: Record, rest: string)
    requires ValidRecord(r)
    ensures ParseLine(PrintRecord(r) + rest) == Success(LineOf(r), rest)
  {
    hide ValidField;
    hide PrintFields;
    hide ParseFields;
    var fields := PrintFields(r.fields) + "\n" + rest;
    FieldsAreParsed(r.fields, rest);
    NameLengthAt(r.word, fields);
    var s := PrintRecord(r) + rest;
    assert s == r.word + fields;
    assert s[..|r.word|] == r.word && s[|r.word|..] == fields;
    hide NameLength;
  }

  /** A whole dump parses back, line by line. */
  lemma {:induction false} RecordsAreParsed(rs: seq<Record>)
    requires forall i :: 0 <= i < |rs| ==> ValidRecord(rs[i])
    ensures ParseLines(PrintRecords(rs)) == Some(LinesOf(rs))
  {
    hide ValidRecord;
    hide PrintRecord;
    hide ParseLine;
    hide LineOf;
    if rs != [] {
      var rest := PrintRecords(rs[1..]);
      RecordIsParsed(rs[0], rest);
      RecordsAreParsed(rs[1..]);
      assert LinesOf(rs) == [LineOf(rs[0])] + LinesOf(rs[1..]);
    }
  }
}
