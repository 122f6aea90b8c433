/** The UTF-8 validator, against the encoding of Unicode scalar values (section 4 of RFC 3629). */
module Utf8 {
  import opened Bytes

  // ----- the encoding ---------------------------------------------------------------------------------

  /** A Unicode scalar value: a code point that is no surrogate. */
  predicate Scalar(cp: nat) { cp <= 0x10FFFF && !(0xD800 <= cp <= 0xDFFF) }

  function Encode(cp: nat): (r: seq<Byte>)
    requires Scalar(cp)
    ensures 1 <= |r| <= 4
  {
    if cp < 0x80 then [cp as Byte]
    else if cp < 0x800 then [(0xC0 + cp / 64) as Byte, Continuation(cp)]
    else if cp < 0x1_0000 then [(0xE0 + cp / 64 / 64) as Byte, Continuation(cp / 64), Continuation(cp)]
    else [(0xF0 + cp / 64 / 64 / 64) as Byte, Continuation(cp / 64 / 64), Continuation(cp / 64), Continuation(cp)]
  }

  /** The continuation byte for the low six bits. */
  function Continuation(n: nat): Byte { (0x80 + n % 64) as Byte }

  function EncodeAll(text: seq<nat>): seq<Byte>
    requires forall i :: 0 <= i < |text| ==> Scalar(text[i])
  {
    if text == [] then [] else Encode(text[0]) + EncodeAll(text[1..])
  }

  /** The bytes encode some sequence of scalar values. */
  ghost predicate Encodes(bytes: seq<Byte>, text: seq<nat>) {
    (forall i :: 0 <= i < |text| ==> Scalar(text[i])) && EncodeAll(text) == bytes
  }

  // ----- one character ----------------------------------------------------------------------------------

  predicate IsContinuation(b: Byte) { 0x80 <= b < 0xC0 }

  /** What the first byte announces: how many bytes follow, the smallest code point for that, and its own bits. */
  datatype Lead = Lead(needed: nat, minimum: nat, bits: nat)

  function LeadOf(b: Byte): Option<Lead> {
    if b < 0x80 then Some(Lead(0, 0, b as nat))
    else if 0xC0 <= b < 0xE0 then Some(Lead(1, 0x80, b as nat % 32))
    else if 0xE0 <= b < 0xF0 then Some(Lead(2, 0x800, b as nat % 16))
    else if 0xF0 <= b < 0xF8 then Some(Lead(3, 0x1_0000, b as nat % 8))
    else None
  }

  /** `bits`, continued by the six low bits of each of the first `n` bytes of `s`, if all are continuation bytes. */
  function Continue(bits: nat, s: seq<Byte>, n: nat): Option<nat>
    requires n <= |s|
  {
    if n == 0 then Some(bits)
    else
      match Continue(bits, s, n - 1)
      case None => None
      case Some(before) => if IsContinuation(s[n - 1]) then Some(before * 64 + s[n - 1] as nat % 64) else None
  }

  datatype Character = Character(scalar: nat, length: nat)

  /** The first character of the bytes, if they start with a valid one. */
  function First(bytes: seq<Byte>): (r: Option<Character>)
    requires bytes != []
    ensures r.Some? ==> 1 <= r.value.length <= |bytes| && Scalar(r.value.scalar)
  {
    match LeadOf(bytes[0])
    case None => None
    case Some(lead) =>
      if lead.needed >= |bytes| then None
      else match Continue(lead.bits, bytes[1..], lead.needed)
        case None => None
        case Some(cp) => if cp < lead.minimum || !Scalar(cp) then None else Some(Character(cp, 1 + lead.needed))
  }

  /** The code point of a lead byte's bits and up to three continuation bytes. */
  lemma ContinueBy(bits: nat, s: seq<Byte>, n: nat)
    requires n <= |s| && n <= 3 && forall i :: 0 <= i < n ==> IsContinuation(s[i])
    ensures n == 0 ==> Continue(bits, s, n) == Some(bits)
    ensures n == 1 ==> Continue(bits, s, n) == Some(bits * 64 + s[0] as nat % 64)
    ensures n == 2 ==> Continue(bits, s, n) == Some((bits * 64 + s[0] as nat % 64) * 64 + s[1] as nat % 64)
    ensures n == 3 ==>
              Continue(bits, s, n)
              == Some(((bits * 64 + s[0] as nat % 64) * 64 + s[1] as nat % 64) * 64 + s[2] as nat % 64)
  {
    if n > 0 {
      ContinueBy(bits, s, n - 1);
    }
  }

  lemma {:induction false} AllContinuations(bits: nat, s: seq<Byte>, n: nat)
    requires n <= |s| && Continue(bits, s, n).Some?
    ensures forall i :: 0 <= i < n ==> IsContinuation(s[i])
  {
    if n > 0 {
      AllContinuations(bits, s, n - 1);
    }
  }

  /** Base 64 digits. */
  lemma Digits(q: nat, r: nat)
    requires r < 64
    ensures (q * 64 + r) / 64 == q && (q * 64 + r) % 64 == r
  {
  }

  lemma ContinuationDigit(n: nat)
    ensures IsContinuation(Continuation(n)) && Continuation(n) as nat % 64 == n % 64 && n == n / 64 * 64 + n % 64
  {
  }

  /** The bytes of an encoded scalar, and what they say. */
  lemma EncodedParts(cp: nat)
    requires Scalar(cp)
    ensures var e := Encode(cp); var lead := LeadOf(e[0]);
            && lead.Some? && lead.value.needed == |e| - 1 && lead.value.minimum <= cp
            && Continue(lead.value.bits, e[1..], |e| - 1) == Some(cp)
  {
    var e := Encode(cp);
    EncodedLead(cp);
    ContinuationDigit(cp);
    ContinuationDigit(cp / 64);
    ContinuationDigit(cp / 64 / 64);
    assert forall i :: 1 <= i < |e| ==> IsContinuation(e[i]);
    hide LeadOf;
    hide Continue;
    hide Continuation;
    hide IsContinuation;
    ContinueBy(LeadOf(e[0]).value.bits, e[1..], |e| - 1);
  }

  lemma EncodedLead(cp: nat)
    requires Scalar(cp)
    ensures var lead := LeadOf(Encode(cp)[0]);
            && lead.Some? && lead.value.needed == |Encode(cp)| - 1 && lead.value.minimum <= cp
            && lead.value.bits == (if cp < 0x80 then cp else if cp < 0x800 then cp / 64
                                   else if cp < 0x1_0000 then cp / 64 / 64 else cp / 64 / 64 / 64)
  {
    hide Continuation;
  }

  /** The code point does not depend on what follows. */
  lemma {:induction false} ContinueAnyway(bits: nat, s: seq<Byte>, rest: seq<Byte>, n: nat)
    requires n <= |s|
    ensures Continue(bits, s + rest, n) == Continue(bits, s, n)
  {
    if n > 0 {
      ContinueAnyway(bits, s, rest, n - 1);
    }
  }

  /** What an encoded scalar starts with is that scalar. */
  lemma EncodedIsFirst(cp: nat, rest: seq<Byte>)
    requires Scalar(cp)
    ensures First(Encode(cp) + rest) == Some(Character(cp, |Encode(cp)|))
  {
    var e := Encode(cp);
    EncodedParts(cp);
    hide Encode;
    var lead := LeadOf(e[0]).value;
    assert (e + rest)[1..] == e[1..] + rest;
    ContinueAnyway(lead.bits, e[1..], rest, lead.needed);
    hide Continue;
    hide LeadOf;
  }

  lemma TwoBytes(b: Byte, c: Byte)
    requires 0xC0 <= b < 0xE0 && IsContinuation(c)
    ensures var cp := b as nat % 32 * 64 + c as nat % 64; cp >= 0x80 && Scalar(cp) ==> Encode(cp) == [b, c]
  {
    Digits(b as nat % 32, c as nat % 64);
  }

  lemma ThreeBytes(b: Byte, c: Byte, d: Byte)
    requires 0xE0 <= b < 0xF0 && IsContinuation(c) && IsContinuation(d)
    ensures var cp := (b as nat % 16 * 64 + c as nat % 64) * 64 + d as nat % 64; cp >= 0x800 && Scalar(cp) ==>
              Encode(cp) == [b, c, d]
  {
    var q := b as nat % 16 * 64 + c as nat % 64;
    Digits(q, d as nat % 64);
    Digits(b as nat % 16, c as nat % 64);
  }

  lemma FourBytes(b: Byte, c: Byte, d: Byte, e: Byte)
    requires 0xF0 <= b < 0xF8 && IsContinuation(c) && IsContinuation(d) && IsContinuation(e)
    ensures var cp := ((b as nat % 8 * 64 + c as nat % 64) * 64 + d as nat % 64) * 64 + e as nat % 64;
            cp >= 0x1_0000 && Scalar(cp) ==> Encode(cp) == [b, c, d, e]
  {
    var q := (b as nat % 8 * 64 + c as nat % 64) * 64 + d as nat % 64;
    Digits(q, e as nat % 64);
    Digits(b as nat % 8 * 64 + c as nat % 64, d as nat % 64);
    Digits(b as nat % 8, c as nat % 64);
  }

  /** A first character is encoded by just the bytes it was read from: overlong forms are not accepted. */
  lemma FirstIsEncoded(bytes: seq<Byte>)
    requires bytes != [] && First(bytes).Some?
    ensures bytes[..First(bytes).value.length] == Encode(First(bytes).value.scalar)
  {
    var lead, tail := LeadOf(bytes[0]).value, bytes[1..];
    AllContinuations(lead.bits, tail, lead.needed);
    ContinueBy(lead.bits, tail, lead.needed);
    hide Continue;
    if lead.needed == 1 {
      TwoBytes(bytes[0], tail[0]);
      hide Encode;
      assert bytes[..2] == [bytes[0], tail[0]];
    } else if lead.needed == 2 {
      ThreeBytes(bytes[0], tail[0], tail[1]);
      hide Encode;
      assert bytes[..3] == [bytes[0], tail[0], tail[1]];
    } else if lead.needed == 3 {
      FourBytes(bytes[0], tail[0], tail[1], tail[2]);
      hide Encode;
      assert bytes[..4] == [bytes[0], tail[0], tail[1], tail[2]];
    }
  }

  // ----- whole strings -------------------------------------------------------------------------------------

  /** The text that the bytes encode, if any. */
  function Decode(bytes: seq<Byte>): (r: Option<seq<nat>>)
    ensures r.Some? ==> forall i :: 0 <= i < |r.value| ==> Scalar(r.value[i])
    decreases |bytes|
  {
    if bytes == [] then Some([])
    else match First(bytes)
      case None => None
      case Some(c) =>
        match Decode(bytes[c.length..])
        case None => None
        case Some(text) => Some([c.scalar] + text)
  }

  lemma {:induction false} DecodeInvertsEncode(text: seq<nat>)
    requires forall i :: 0 <= i < |text| ==> Scalar(text[i])
    ensures Decode(EncodeAll(text)) == Some(text)
  {
    hide First;
    hide Encode;
    if text != [] {
      var rest := EncodeAll(text[1..]);
      EncodedIsFirst(text[0], rest);
      assert (Encode(text[0]) + rest)[|Encode(text[0])|..] == rest;
      DecodeInvertsEncode(text[1..]);
      assert text == [text[0]] + text[1..];
    }
  }

  lemma {:induction false} EncodeInvertsDecode(bytes: seq<Byte>)
    requires Decode(bytes).Some?
    ensures EncodeAll(Decode(bytes).value) == bytes
    decreases |bytes|
  {
    hide First;
    hide Encode;
    if bytes != [] {
      var c := First(bytes).value;
      FirstIsEncoded(bytes);
      EncodeInvertsDecode(bytes[c.length..]);
      var text := Decode(bytes).value;
      assert text[0] == c.scalar && text[1..] == Decode(bytes[c.length..]).value;
      assert bytes == bytes[..c.length] + bytes[c.length..];
    }
  }

  /** Exactly the encodings decode. */
  lemma DecodableIsEncoding(bytes: seq<Byte>)
    ensures Decode(bytes).Some? <==> exists text :: Encodes(bytes, text)
  {
    if Decode(bytes).Some? {
      EncodeInvertsDecode(bytes);
      assert Encodes(bytes, Decode(bytes).value);
    }
    if exists text :: Encodes(bytes, text) {
      var text :| Encodes(bytes, text);
      DecodeInvertsEncode(text);
    }
  }

  // ----- the validator ----------------------------------------------------------------------------------------

  /** The code point of the character at `i`, if its bytes are valid. */
  method ValidateCharacter(bytes: seq<Byte>, i: nat) returns (ok: bool, length: nat)
    requires i < |bytes|
    ensures ok <==> First(bytes[i..]).Some?
    ensures ok ==> length == First(bytes[i..]).value.length
  {
    var c0 := bytes[i];
    ghost var rest := bytes[i..];
    assert rest[0] == c0;
    if c0 < 0x80 {
      return true, 1;
    }
    var needed, minimum, cp: nat := 0, 0, 0;
    if 0xC0 <= c0 && c0 < 0xE0 {
      needed, minimum, cp := 1, 0x80, c0 as nat % 32;
    } else if 0xE0 <= c0 && c0 < 0xF0 {
      needed, minimum, cp := 2, 0x800, c0 as nat % 16;
    } else if 0xF0 <= c0 && c0 < 0xF8 {
      needed, minimum, cp := 3, 0x1_0000, c0 as nat % 8;
    } else {
      return false, 0;
    }
    if i + needed >= |bytes| {
      return false, 0;
    }
    ghost var bits, tail := cp, rest[1..];
    var j: nat := 0;
    while j < needed
      invariant 0 <= j <= needed && Continue(bits, tail, j) == Some(cp)
    {
      var cx := bytes[i + 1 + j];
      assert cx == tail[j];
      if cx < 0x80 || cx >= 0xC0 {
        NoContinuation(bits, tail, j + 1, needed);
        return false, 0;
      }
      cp := cp * 64 + cx as nat % 64;
      j := j + 1;
    }
    ok := !(cp < minimum || cp > 0x10FFFF || (cp >= 0xD800 && cp <= 0xDFFF));
    length := 1 + needed;
  }

  lemma {:induction false} NoContinuation(bits: nat, s: seq<Byte>, m: nat, n: nat)
    requires m <= n <= |s| && Continue(bits, s, m).None?
    ensures Continue(bits, s, n).None?
  {
    if m < n {
      NoContinuation(bits, s, m, n - 1);
    }
  }

  /** Accepts a byte string exactly if it is the encoding of some sequence of scalar values. */
  method ValidUtf8(bytes: seq<Byte>) returns (ok: bool)
    ensures ok <==> exists text :: Encodes(bytes, text)
  {
    DecodableIsEncoding(bytes);
    hide Encodes;
    hide First;
    var i: nat := 0;
    while i < |bytes|
      invariant 0 <= i <= |bytes| && (Decode(bytes).Some? <==> Decode(bytes[i..]).Some?)
    {
      ghost var rest := bytes[i..];
      var valid, length := ValidateCharacter(bytes, i);
      if !valid {
        return false;
      }
      assert rest[length..] == bytes[i + length..];
      i := i + length;
    }
    ok := true;
  }
}
