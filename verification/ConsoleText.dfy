/**
 * Console-safe text: escaping of arbitrary bytes, its inverse, and hexadecimal output. A string holds
 * one byte per character.
 */
module ConsoleText {
  import opened Bytes

  predicate IsByte(c: char) { c as int < 256 }

  predicate AllBytes(s: string) { forall i :: 0 <= i < |s| ==> IsByte(s[i]) }

  predicate Printable(c: char) { 0x20 <= c as int < 0x7F }

  function HexDigit(n: nat): (c: char)
    requires n < 16
    ensures Printable(c) && c != '"' && c != '\\'
  {
    if n < 10 then ('0' as int + n) as char else ('A' as int + (n - 10)) as char
  }

  function HexValue(c: char): Option<nat> {
    if '0' <= c <= '9' then Some(c as int - '0' as int)
    else if 'A' <= c <= 'F' then Some(c as int - 'A' as int + 10)
    else None
  }

  function HexByte(c: char): (s: string)
    requires IsByte(c)
    ensures |s| == 2
  {
    [HexDigit(c as int / 16), HexDigit(c as int % 16)]
  }

  // ----- escaping ----------------------------------------------------------------------------------------

  function EscapeChar(c: char): (s: string)
    requires IsByte(c)
    ensures s != ""
  {
    if c == '\\' || c == '"' then ['\\', c]
    else if c == '\n' then ['\\', 'n']
    else if c == '\r' then ['\\', 'r']
    else if c == '\t' then ['\\', 't']
    else if !Printable(c) then ['\\', 'x'] + HexByte(c)
    else [c]
  }

  function Escape(s: string): string
    requires AllBytes(s)
  {
    if s == "" then "" else Escape(s[..|s| - 1]) + EscapeChar(s[|s| - 1])
  }

  /** The bytes that `escape` stands for; none for a text that no escaping yields. */
  function Unescape(s: string): Option<string> {
    if s == "" then Some("")
    else if s[0] != '\\' then Then([s[0]], Unescape(s[1..]))
    else if |s| < 2 then None
    else if s[1] == '\\' || s[1] == '"' then Then([s[1]], Unescape(s[2..]))
    else if s[1] == 'n' then Then("\n", Unescape(s[2..]))
    else if s[1] == 'r' then Then("\r", Unescape(s[2..]))
    else if s[1] == 't' then Then("\t", Unescape(s[2..]))
    else if s[1] == 'x' && |s| >= 4 && HexValue(s[2]).Some? && HexValue(s[3]).Some? then
      Then([(HexValue(s[2]).value * 16 + HexValue(s[3]).value) as char], Unescape(s[4..]))
    else None
  }

  function Then(s: string, rest: Option<string>): Option<string> {
    if rest.None? then None else Some(s + rest.value)
  }

  /** The position of the first quote that is not escaped. */
  function QuoteEnd(s: string): (r: Option<nat>)
    ensures r.Some? ==> r.value < |s| && s[r.value] == '"'
  {
    if s == "" then None
    else if s[0] == '"' then Some(0)
    else
      var skip := if s[0] == '\\' then 2 else 1;
      if |s| < skip then None else After(skip, QuoteEnd(s[skip..]))
  }

  function After(n: nat, r: Option<nat>): Option<nat> {
    if r.None? then None else Some(n + r.value)
  }

  lemma HexRoundTrip(c: char)
    requires IsByte(c)
    ensures HexValue(HexDigit(c as int / 16)) == Some(c as int / 16)
            && HexValue(HexDigit(c as int % 16)) == Some(c as int % 16)
    ensures c as int == c as int / 16 * 16 + c as int % 16
  {
  }

  lemma PlainChar(c: char, rest: string)
    requires c != '\\' && c != '"'
    ensures Unescape([c] + rest) == Then([c], Unescape(rest)) && QuoteEnd([c] + rest) == After(1, QuoteEnd(rest))
  {
    var s := [c] + rest;
    assert s[0] == c && s[1..] == rest;
  }

  /** A backslash and one of the letters that stand for a character. */
  lemma EscapedPair(letter: char, c: char, rest: string)
    requires (letter == c && (c == '\\' || c == '"')) || (letter == 'n' && c == '\n') || (letter == 'r' && c == '\r')
             || (letter == 't' && c == '\t')
    ensures Unescape(['\\', letter] + rest) == Then([c], Unescape(rest))
    ensures QuoteEnd(['\\', letter] + rest) == After(2, QuoteEnd(rest))
  {
    var s := ['\\', letter] + rest;
    assert s[0] == '\\' && s[1] == letter && s[2..] == rest;
  }

  lemma HexText(c: char, rest: string)
    requires IsByte(c)
    ensures var s := ['\\', 'x'] + HexByte(c) + rest;
            && s[0] == '\\' && s[1] == 'x' && s[2] == HexDigit(c as int / 16) && s[3] == HexDigit(c as int % 16)
            && s[2..] == [HexDigit(c as int / 16)] + ([HexDigit(c as int % 16)] + rest) && s[4..] == rest
  {
    hide HexDigit;
  }

  lemma EscapedHex(c: char, rest: string)
    requires IsByte(c)
    ensures Unescape(['\\', 'x'] + HexByte(c) + rest) == Then([c], Unescape(rest))
  {
    HexRoundTrip(c);
    HexText(c, rest);
    hide HexByte;
    hide HexDigit;
    hide HexValue;
    hide Then;
  }

  lemma HexHidesNoQuote(c: char, rest: string)
    requires IsByte(c)
    ensures QuoteEnd(['\\', 'x'] + HexByte(c) + rest) == After(4, QuoteEnd(rest))
  {
    HexText(c, rest);
    hide HexByte;
    FourSkipped(['\\', 'x'] + HexByte(c) + rest, HexDigit(c as int / 16), HexDigit(c as int % 16), rest);
  }

  lemma FourSkipped(s: string, h: char, l: char, rest: string)
    requires |s| >= 2 && s[0] == '\\' && s[2..] == [h] + ([l] + rest)
    requires h != '\\' && h != '"' && l != '\\' && l != '"'
    ensures QuoteEnd(s) == After(4, QuoteEnd(rest))
  {
    hide QuoteEnd;
    BackslashSkips(s);
    PlainChar(h, [l] + rest);
    PlainChar(l, rest);
  }

  lemma BackslashSkips(s: string)
    requires |s| >= 2 && s[0] == '\\'
    ensures QuoteEnd(s) == After(2, QuoteEnd(s[2..]))
  {
  }

  /** One escaped character is read back as that character, and hides no quote. */
  lemma EscapedChar(c: char, rest: string)
    requires IsByte(c)
    ensures Unescape(EscapeChar(c) + rest) == Then([c], Unescape(rest))
    ensures QuoteEnd(EscapeChar(c) + rest) == After(|EscapeChar(c)|, QuoteEnd(rest))
    ensures forall i :: 0 <= i < |EscapeChar(c)| ==> Printable(EscapeChar(c)[i])
  {
    hide Unescape;
    hide QuoteEnd;
    hide Then;
    hide After;
    hide HexDigit;
    if c == '\\' || c == '"' {
      EscapedPair(c, c, rest);
    } else if c == '\n' {
      EscapedPair('n', c, rest);
    } else if c == '\r' {
      EscapedPair('r', c, rest);
    } else if c == '\t' {
      EscapedPair('t', c, rest);
    } else if !Printable(c) {
      EscapedHex(c, rest);
      HexHidesNoQuote(c, rest);
    } else {
      PlainChar(c, rest);
    }
  }

  lemma ThenThen(a: string, b: string, r: Option<string>)
    ensures Then(a, Then(b, r)) == Then(a + b, r)
  {
    if r.Some? {
      assert a + (b + r.value) == (a + b) + r.value;
    }
  }

  lemma JoinLater(a: string, b: string, c: string)
    ensures (a + b) + c == a + (b + c)
  {
  }

  /** Escaped text, whatever follows, is read back as the text; all of it is printable; it hides no quote. */
  lemma {:induction false} EscapedText(s: string, rest: string)
    requires AllBytes(s)
    ensures Unescape(Escape(s) + rest) == Then(s, Unescape(rest))
    ensures QuoteEnd(Escape(s) + rest) == After(|Escape(s)|, QuoteEnd(rest))
    ensures forall i :: 0 <= i < |Escape(s)| ==> Printable(Escape(s)[i])
  {
    hide EscapeChar;
    hide Unescape;
    hide QuoteEnd;
    if s == "" {
      assert Escape(s) + rest == rest;
      assert Unescape(rest).Some? ==> "" + Unescape(rest).value == Unescape(rest).value;
    } else {
      var init, last := s[..|s| - 1], s[|s| - 1];
      EscapedText(init, EscapeChar(last) + rest);
      EscapedChar(last, rest);
      JoinLater(Escape(init), EscapeChar(last), rest);
      ThenThen(init, [last], Unescape(rest));
      hide Then;
      assert s == init + [last];
    }
  }

  /** Escaping is invertible, and its result is printable and free of unescaped quotes. */
  lemma EscapeInverts(s: string)
    requires AllBytes(s)
    ensures Unescape(Escape(s)) == Some(s) && QuoteEnd(Escape(s)) == None
    ensures forall i :: 0 <= i < |Escape(s)| ==> Printable(Escape(s)[i])
  {
    EscapedText(s, "");
    assert Unescape("") == Some("") && QuoteEnd("") == None;
    hide Escape;
    hide Unescape;
    hide QuoteEnd;
    assert Escape(s) + "" == Escape(s) && s + "" == s;
  }

  // ----- cutting ---------------------------------------------------------------------------------------------

  /** How much of a text is shown; a limit of 0 means no limit. */
  function CappedCount(size: nat, maxBytes: U32): nat {
    if maxBytes != 0 && size > maxBytes then maxBytes else size
  }

  function Cut(s: string, maxBytes: U32): string { s[..CappedCount(|s|, maxBytes)] }

  const DOTS := "..."

  /** What is shown for a text: its beginning, and dots if it was cut. */
  function Shown(s: string, maxBytes: U32): string {
    Cut(s, maxBytes) + if CappedCount(|s|, maxBytes) < |s| then DOTS else ""
  }

  function ShownEscaped(s: string, maxBytes: U32): string
    requires AllBytes(s)
  {
    Escape(Cut(s, maxBytes)) + if CappedCount(|s|, maxBytes) < |s| then DOTS else ""
  }

  lemma {:induction false} PlainText(s: string, rest: string)
    requires forall i :: 0 <= i < |s| ==> s[i] != '\\' && s[i] != '"'
    ensures Unescape(s + rest) == Then(s, Unescape(rest)) && QuoteEnd(s + rest) == After(|s|, QuoteEnd(rest))
  {
    hide Unescape;
    hide QuoteEnd;
    if s == "" {
      assert s + rest == rest;
      assert Unescape(rest).Some? ==> s + Unescape(rest).value == Unescape(rest).value;
    } else {
      var init, last := s[..|s| - 1], s[|s| - 1];
      PlainText(init, [last] + rest);
      PlainChar(last, rest);
      JoinLater(init, [last], rest);
      ThenThen(init, [last], Unescape(rest));
      hide Then;
      assert s == init + [last];
    }
  }

  lemma DotsPlain(rest: string)
    ensures Unescape(DOTS + rest) == Then(DOTS, Unescape(rest)) && QuoteEnd(DOTS + rest) == After(3, QuoteEnd(rest))
  {
    hide Unescape;
    hide QuoteEnd;
    PlainText(DOTS, rest);
  }

  /** A field that was cut is read back as its beginning and the dots. */
  lemma ShownIsRead(s: string, maxBytes: U32, rest: string)
    requires AllBytes(s)
    ensures Unescape(ShownEscaped(s, maxBytes)) == Some(Shown(s, maxBytes))
    ensures QuoteEnd(ShownEscaped(s, maxBytes) + "\"" + rest) == Some(|ShownEscaped(s, maxBytes)|)
  {
    var cut := Cut(s, maxBytes);
    var quoted := "\"" + rest;
    assert Unescape("") == Some("") && QuoteEnd(quoted) == Some(0);
    hide Escape;
    hide Unescape;
    hide QuoteEnd;
    var escaped := Escape(cut);
    JoinLater(ShownEscaped(s, maxBytes), "\"", rest);
    if CappedCount(|s|, maxBytes) < |s| {
      EscapedText(cut, DOTS);
      DotsPlain("");
      assert DOTS + "" == DOTS;
      EscapedText(cut, DOTS + quoted);
      DotsPlain(quoted);
      JoinLater(escaped, DOTS, quoted);
    } else {
      EscapeInverts(cut);
      EscapedText(cut, quoted);
      assert ShownEscaped(s, maxBytes) == escaped && Shown(s, maxBytes) == cut;
    }
  }

  // ----- hexadecimal -------------------------------------------------------------------------------------------

  function Hex(s: string): string
    requires AllBytes(s)
  {
    if s == "" then "" else Hex(s[..|s| - 1]) + HexByte(s[|s| - 1])
  }

  /** The bytes written in pairs of digits at the front of `s`, as far as there are any. */
  function Unhex(s: string): string {
    if |s| >= 2 && HexValue(s[0]).Some? && HexValue(s[1]).Some? then
      [(HexValue(s[0]).value * 16 + HexValue(s[1]).value) as char] + Unhex(s[2..])
    else ""
  }

  lemma {:induction false} HexIsRead(s: string, rest: string)
    requires AllBytes(s)
    ensures Unhex(Hex(s) + rest) == s + Unhex(rest)
  {
    if s == "" {
      assert Hex(s) + rest == rest;
    } else {
      var init, last := s[..|s| - 1], s[|s| - 1];
      HexIsRead(init, HexByte(last) + rest);
      HexRoundTrip(last);
      assert (HexByte(last) + rest)[2..] == rest;
      JoinLater(Hex(init), HexByte(last), rest);
      JoinLater(init, [last], Unhex(rest));
      assert s == init + [last];
      hide Hex;
      hide HexDigit;
      hide HexValue;
    }
  }

  lemma EscapeMore(s: string, i: nat)
    requires AllBytes(s) && i < |s|
    ensures Escape(s[..i + 1]) == Escape(s[..i]) + EscapeChar(s[i])
  {
    assert s[..i + 1][..i] == s[..i];
  }

  // ----- appending ----------------------------------------------------------------------------------------------

  /** The caller's string. */
  class TextBuffer {
    var text: string

    constructor ()
      ensures text == ""
    {
      text := "";
    }

    /** Appends one character; tells whether it had to be replaced. */
    method AppendEscapedChar(c: char) returns (dangerous: bool)
      requires IsByte(c)
      modifies this
      ensures text == old(text) + EscapeChar(c) && dangerous == !Printable(c)
    {
      dangerous := false;
      if c == '\\' || c == '"' {
        text := text + ['\\', c];
      } else if c == '\n' {
        text := text + "\\n";
        dangerous := true;
      } else if c == '\r' {
        text := text + "\\r";
        dangerous := true;
      } else if c == '\t' {
        text := text + "\\t";
        dangerous := true;
      } else if c as int < 0x20 || c as int == 0x7F || c as int >= 0x80 {
        text := text + (['\\', 'x'] + HexByte(c));
        dangerous := true;
      } else {
        text := text + [c];
      }
    }

    /** Appends escaped text; the flag tells whether something had to be replaced or was cut. */
    method AppendConsoleEscapedAscii(s: string, maxBytes: U32) returns (dangerous: bool)
      requires AllBytes(s)
      modifies this
      ensures text == old(text) + ShownEscaped(s, maxBytes)
      ensures dangerous <==>
                (exists i :: 0 <= i < CappedCount(|s|, maxBytes) && !Printable(s[i]))
                || CappedCount(|s|, maxBytes) < |s|
    {
      hide EscapeChar;
      ghost var start := text;
      dangerous := false;
      var n := CappedCount(|s|, maxBytes);
      var i := 0;
      while i < n
        invariant 0 <= i <= n && text == start + Escape(s[..i])
        invariant dangerous <==> exists k :: 0 <= k < i && !Printable(s[k])
      {
        EscapeMore(s, i);
        JoinLater(start, Escape(s[..i]), EscapeChar(s[i]));
        hide Escape;
        var replaced := AppendEscapedChar(s[i]);
        dangerous := dangerous || replaced;
        i := i + 1;
      }
      if n < |s| {
        text := text + "...";
        dangerous := true;
      }
    }

    method AppendHexBytes(s: string, maxBytes: U32)
      requires AllBytes(s)
      modifies this
      ensures text == old(text) + Hex(Cut(s, maxBytes)) + if CappedCount(|s|, maxBytes) < |s| then DOTS else ""
    {
      ghost var start := text;
      var n := CappedCount(|s|, maxBytes);
      var i := 0;
      while i < n
        invariant 0 <= i <= n && text == start + Hex(s[..i])
      {
        assert s[..i + 1][..i] == s[..i];
        text := text + HexByte(s[i]);
        i := i + 1;
      }
      if n < |s| {
        text := text + "...";
      }
    }
  }
}
