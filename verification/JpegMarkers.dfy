/**
 * What stands between the segments of a JPEG file: fill bytes and markers without a payload are passed
 * over, and a file in which no marker is where one must be, or a segment is cut short, is malformed.
 */
module JpegMarkers {
  import opened Bytes
  import opened JpegSegments
  import opened JumbfRoundTrip

  /** `n` fill bytes. */
  function Fill(n: nat): (r: seq<Byte>)
    ensures |r| == n && forall i :: 0 <= i < n ==> r[i] == 0xFF
  {
    seq(n, _ => 0xFF)
  }

  /** Markers that have no payload: TEM, and RST0 to RST7. */
  predicate IsLone(low: Byte) { low in {0x01, 0xD0, 0xD1, 0xD2, 0xD3, 0xD4, 0xD5, 0xD6, 0xD7} }

  /** Behind `n` fill bytes stands the low byte of the marker. */
  lemma MarkerBehindFill(file: seq<Byte>, pos: nat, n: nat, low: Byte, rest: seq<Byte>)
    requires pos <= |file| && file[pos..] == Fill(n) + ([low] + rest) && low != 0xFF
    ensures pos + n < |file| && SkipFill(file, pos) == pos + n && file[pos + n] == low && file[pos + n + 1..] == rest
    ensures n > 0 ==> file[pos] == 0xFF
  {
    FrontAt(file, pos, Fill(n), [low] + rest);
    FrontAt(file, pos + n, [low], rest);
    assert file[pos + n + 0] == [low][0];
    forall i | pos <= i < pos + n ensures file[i] == 0xFF {
      assert file[pos + (i - pos)] == Fill(n)[i - pos];
    }
    SkipsTo(file, pos, pos + n);
    hide Fill;
  }

  /** Fill bytes are skipped up to the first byte that is none. */
  lemma SkipsTo(file: seq<Byte>, pos: nat, at: nat)
    requires pos <= at < |file| && file[at] != 0xFF && forall i :: pos <= i < at ==> file[i] == 0xFF
    ensures SkipFill(file, pos) == at
  {
    var r := SkipFill(file, pos);
    hide SkipFill;
  }

  /** A marker without a payload, with any fill bytes before it, is passed over. */
  lemma LoneMarkerIsPassed(file: seq<Byte>, pos: nat, n: nat, low: Byte, rest: seq<Byte>)
    requires n > 0 && IsLone(low) && pos <= |file| && file[pos..] == Fill(n) + ([low] + rest)
    ensures pos + n + 1 <= |file| && file[pos + n + 1..] == rest && Walk(file, pos) == Walk(file, pos + n + 1)
  {
    hide *;
    LoneIsNoFill(low);
    MarkerBehindFill(file, pos, n, low, rest);
    LoneMarkerStep(file, pos, pos + n, low);
  }

  lemma LoneIsNoFill(low: Byte)
    requires IsLone(low)
    ensures low != 0xFF
  {
  }

  lemma LoneMarkerStep(file: seq<Byte>, pos: nat, at: nat, low: Byte)
    requires pos < at < |file| && file[pos] == 0xFF && SkipFill(file, pos) == at && file[at] == low && IsLone(low)
    ensures Walk(file, pos) == Walk(file, at + 1)
  {
    hide SkipFill;
    assert StepAt(file, pos) == Standalone(at + 1);
    hide StepAt;
  }

  lemma EncodedFront(f: Frame, rest: seq<Byte>)
    ensures Encode(f) + rest == Fill(1) + ([f.low] + (BeBytes(|f.payload| + 2, 2) + f.payload + rest))
  {
  }

  lemma FillJoins(n: nat, rest: seq<Byte>)
    ensures Fill(n) + (Fill(1) + rest) == Fill(n + 1) + rest
  {
  }

  /** Further fill bytes before a segment change nothing but its offset. */
  lemma FillIsSkipped(file: seq<Byte>, pos: nat, n: nat, f: Frame, rest: seq<Byte>)
    requires n > 0 && ProperFrame(f) && pos <= |file| && file[pos..] == Fill(n) + (Encode(f) + rest)
    ensures pos + n <= |file| && file[pos + n..] == Encode(f) + rest && Walk(file, pos) == Walk(file, pos + n)
  {
    var tail := [f.low] + (BeBytes(|f.payload| + 2, 2) + f.payload + rest);
    var code := Encode(f) + rest;
    EncodedFront(f, rest);
    FillJoins(n, tail);
    assert f.low != 0xFF;
    hide *;
    FrontAt(file, pos, Fill(n), code);
    SameSteps(file, pos, n, f.low, BeBytes(|f.payload| + 2, 2) + f.payload + rest);
  }

  lemma SameSteps(file: seq<Byte>, pos: nat, n: nat, low: Byte, rest: seq<Byte>)
    requires pos + n <= |file| && low != 0xFF
    requires file[pos..] == Fill(n + 1) + ([low] + rest) && file[pos + n..] == Fill(1) + ([low] + rest)
    ensures Walk(file, pos) == Walk(file, pos + n)
  {
    hide *;
    MarkerBehindFill(file, pos, n + 1, low, rest);
    MarkerBehindFill(file, pos + n, 1, low, rest);
    StepsDependOnMarker(file, pos, pos + n);
  }

  lemma StepsDependOnMarker(file: seq<Byte>, a: nat, b: nat)
    requires a + 2 <= |file| && b + 2 <= |file| && file[a] == 0xFF && file[b] == 0xFF
    requires SkipFill(file, a) == SkipFill(file, b)
    ensures Walk(file, a) == Walk(file, b)
  {
    hide SkipFill;
    assert StepAt(file, a) == StepAt(file, b);
    hide StepAt;
  }

  /** Where a marker must be and there is none, the file is malformed. */
  lemma NoMarkerIsRefused(file: seq<Byte>, pos: nat)
    requires pos + 2 <= |file| && file[pos] != 0xFF
    ensures Walk(file, pos) == ([], false)
  {
  }

  /** So it is if less than the announced payload of a segment is there. */
  lemma CutSegmentIsRefused(file: seq<Byte>, pos: nat, low: Byte, announced: nat, rest: seq<Byte>)
    requires pos <= |file| && ProperFrame(Frame(low, [])) && announced <= 65533 && |rest| < announced
    requires file[pos..] == Fill(1) + ([low] + (BeBytes(announced + 2, 2) + rest))
    ensures Walk(file, pos) == ([], false)
  {
    var tail := BeBytes(announced + 2, 2) + rest;
    MarkerBehindFill(file, pos, 1, low, tail);
    FrontAt(file, pos, Fill(1), [low] + tail);
    FrontAt(file, pos + 2, BeBytes(announced + 2, 2), rest);
    assert |file| == pos + 4 + |rest|;
    assert Pow256(2) == 0x10000;
    BeRoundTrip(announced + 2, 2);
    hide SkipFill;
    hide BeBytes;
    hide BeValue;
    assert StepAt(file, pos) == Broken;
  }
}
