/** Bytes, the integer widths of the source, and big- and little-endian numbers. */
module Bytes {

  newtype Byte = b: int | 0 <= b < 256

  const U16_MAX := 0xFFFF
  const U32_MAX := 0xFFFF_FFFF
  const U64_MAX := 0xFFFF_FFFF_FFFF_FFFF

  // No C++ object, hence no span of bytes, is longer than this (PTRDIFF_MAX).
  const SPAN_MAX := 0x7FFF_FFFF_FFFF_FFFF

  type U16 = n: int | 0 <= n <= U16_MAX
  type U32 = n: int | 0 <= n <= U32_MAX
  type U64 = n: int | 0 <= n <= U64_MAX

  datatype Option<+T> = None | Some(value: T)

  /** `[offset, offset + length)` lies inside `[0, total)`, computed without overflow. */
  predicate CheckedRange(offset: nat, length: nat, total: nat) {
    offset <= total && length <= total - offset
  }

  function Min(a: int, b: int): int { if a < b then a else b }

  function Max(a: int, b: int): int { if a > b then a else b }

  /** The number whose base-256 digits, most significant first, are `s`. */
  function BeValue(s: seq<Byte>): nat {
    if s == [] then 0 else BeValue(s[..|s| - 1]) * 256 + s[|s| - 1] as nat
  }

  /** The number whose base-256 digits, least significant first, are `s`. */
  function LeValue(s: seq<Byte>): nat {
    if s == [] then 0 else s[0] as nat + 256 * LeValue(s[1..])
  }

  /** The four character code of a box, chunk or reference type. */
  function FourCC(a: char, b: char, c: char, d: char): U32
    requires a < 128 as char && b < 128 as char && c < 128 as char && d < 128 as char
  {
    ((a as int * 256 + b as int) * 256 + c as int) * 256 + d as int
  }

  function Pow256(n: nat): nat {
    if n == 0 then 1 else 256 * Pow256(n - 1)
  }

  /** The `n` low base-256 digits of `v`, most significant first. */
  function BeBytes(v: nat, n: nat): (s: seq<Byte>)
    ensures |s| == n
  {
    if n == 0 then [] else BeBytes(v / 256, n - 1) + [(v % 256) as Byte]
  }

  lemma {:induction false} BeValueBound(s: seq<Byte>)
    ensures BeValue(s) < Pow256(|s|)
  {
    if s != [] {
      BeValueBound(s[..|s| - 1]);
    }
  }

  /** Reading back what was written: a number that fits in `n` bytes survives. */
  lemma {:induction false} BeRoundTrip(v: nat, n: nat)
    requires v < Pow256(n)
    ensures BeValue(BeBytes(v, n)) == v
  {
    if n > 0 {
      BeRoundTrip(v / 256, n - 1);
      var s := BeBytes(v, n);
      assert s[..n - 1] == BeBytes(v / 256, n - 1);
    }
  }

  /** Writing what was read gives the digits back. */
  lemma {:induction false} BeBytesOfValue(s: seq<Byte>)
    ensures BeBytes(BeValue(s), |s|) == s
  {
    if s != [] {
      var init := s[..|s| - 1];
      BeBytesOfValue(init);
      assert s == init + [s[|s| - 1]];
    }
  }

  /** The first byte is the most significant one. */
  lemma BeOfFour(a: Byte, b: Byte, c: Byte, d: Byte)
    ensures BeValue([a, b, c, d]) == ((a as nat * 256 + b as nat) * 256 + c as nat) * 256 + d as nat
  {
    assert [a][..0] == [] && BeValue([a]) == a as nat;
    assert [a, b][..1] == [a] && BeValue([a, b]) == a as nat * 256 + b as nat;
    assert [a, b, c][..2] == [a, b] && BeValue([a, b, c]) == (a as nat * 256 + b as nat) * 256 + c as nat;
    assert [a, b, c, d][..3] == [a, b, c];
  }

  lemma {:induction false} Pow256Grows(m: nat, n: nat)
    requires m <= n
    ensures 1 <= Pow256(m) <= Pow256(n)
  {
    if m < n {
      Pow256Grows(m, n - 1);
    } else if m > 0 {
      Pow256Grows(m - 1, m - 1);
    }
  }

  /** A number of up to eight, four or two bytes fits the type of that width. */
  lemma FieldFits(s: seq<Byte>)
    requires |s| <= 8
    ensures BeValue(s) <= U64_MAX
    ensures |s| <= 4 ==> BeValue(s) <= U32_MAX
    ensures |s| <= 2 ==> BeValue(s) <= U16_MAX
  {
    BeValueBound(s);
    var n := |s|;
    Pow256Grows(n, 8);
    if n <= 4 {
      Pow256Grows(n, 4);
    }
    if n <= 2 {
      Pow256Grows(n, 2);
    }
    assert Pow256(8) == 0x1_0000_0000_0000_0000 && Pow256(4) == 0x1_0000_0000 && Pow256(2) == 0x1_0000;
  }

  /** A slice of a slice. */
  lemma SliceOfSlice(file: seq<Byte>, start: nat, length: nat, a: nat, n: nat)
    requires start + length <= |file| && a + n <= length
    ensures file[start..start + length][a..a + n] == file[start + a..start + a + n]
  {
    var whole := file[start..start + length];
    var part := whole[a..a + n];
    assert forall i :: 0 <= i < n ==> part[i] == whole[a + i] == file[start + a + i];
  }

  /** What stands at `p` when the rest of the bytes from there is known. */
  lemma FrontAt(src: seq<Byte>, p: nat, front: seq<Byte>, rest: seq<Byte>)
    requires p <= |src| && src[p..] == front + rest
    ensures p + |front| <= |src| && src[p..p + |front|] == front && src[p + |front|..] == rest
    ensures forall i :: 0 <= i < |front| ==> src[p + i] == front[i]
  {
    assert |src[p..]| == |front| + |rest|;
    forall i | 0 <= i < |front| ensures src[p + i] == front[i] {
      assert src[p..][i] == (front + rest)[i];
    }
    assert src[p + |front|..] == src[p..][|front|..];
  }

  lemma Regroup(a: seq<Byte>, b: seq<Byte>, c: seq<Byte>, d: seq<Byte>)
    ensures a + b + c + d == a + (b + (c + d))
  {
  }

  /** The pieces, one after another. */
  function Concat(pieces: seq<seq<Byte>>): seq<Byte> {
    if pieces == [] then [] else Concat(pieces[..|pieces| - 1]) + pieces[|pieces| - 1]
  }

  lemma {:induction false} ConcatJoin(a: seq<seq<Byte>>, b: seq<seq<Byte>>)
    ensures Concat(a + b) == Concat(a) + Concat(b)
  {
    if b == [] {
      assert a + b == a;
    } else {
      var init := b[..|b| - 1];
      ConcatJoin(a, init);
      assert (a + b)[..|a + b| - 1] == a + init;
    }
  }
}
