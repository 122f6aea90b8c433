/** What precedes the TIFF data of an Exif item: an offset field with what it skips, and an Exif marker. */
module ExifPreamble {
  import opened Bytes
  import opened Blocks
  import JpegSegments

  /** How many bytes the offset field says to skip, itself included; none if nothing would be left. */
  function OffsetSkip(s: seq<Byte>): (n: nat)
    ensures n > 0 ==> 4 <= n < |s|
  {
    if |s| < 4 then 0
    else
      var skip := 4 + BeValue(s[..4]);
      if skip >= |s| then 0 else skip
  }

  /** The length of an Exif marker in front of a TIFF header. */
  function MarkerSkip(s: seq<Byte>): (n: nat)
    ensures n > 0 ==> n == 6 && |s| >= 10
  {
    if |s| >= 10 && s[..4] == JpegSegments.EXIF && s[4] == 0 && JpegSegments.TiffAt(s, 6) then 6 else 0
  }

  /** How many bytes precede the TIFF data; at least one byte is left of what is not empty. */
  function ExifSkip(s: seq<Byte>): (n: nat)
    ensures n > 0 ==> n < |s|
  {
    var n := OffsetSkip(s);
    n + MarkerSkip(s[n..])
  }

  /** The block without the offset field and what it skips. */
  function WithoutOffset(file: seq<Byte>, b: Block): Block
    requires InFile(file, b) && |file| <= SPAN_MAX
  {
    var s := BlockBytes(file, b);
    var n := OffsetSkip(s);
    if n == 0 then b
    else
      FieldFits(s[..4]);
      b.(chunking := BmffExifTiffOffsetU32Be, auxU32 := BeValue(s[..4]), dataOffset := b.dataOffset + n,
         dataSize := b.dataSize - n)
  }

  function WithoutMarker(file: seq<Byte>, b: Block): Block
    requires InFile(file, b) && |file| <= SPAN_MAX
  {
    var n := MarkerSkip(BlockBytes(file, b));
    b.(dataOffset := b.dataOffset + n, dataSize := b.dataSize - n)
  }

  function WithoutPreamble(file: seq<Byte>, b: Block): Block
    requires InFile(file, b) && |file| <= SPAN_MAX
  {
    WithoutMarker(file, WithoutOffset(file, b))
  }

  /** Only the data range changes, by the length of the preamble, and the chunking if there was an offset field. */
  lemma PreambleRange(file: seq<Byte>, b: Block)
    requires InFile(file, b) && |file| <= SPAN_MAX
    ensures var n := ExifSkip(BlockBytes(file, b));
            var r := WithoutPreamble(file, b);
            && r == b.(dataOffset := b.dataOffset + n, dataSize := b.dataSize - n, chunking := r.chunking,
                       auxU32 := r.auxU32)
            && (r.chunking == b.chunking || r.chunking == BmffExifTiffOffsetU32Be)
  {
    var s := BlockBytes(file, b);
    var n := OffsetSkip(s);
    assert BlockBytes(file, WithoutOffset(file, b)) == s[n..];
  }

  method SkipBmffExifOffset(file: seq<Byte>, b: Block) returns (r: Block)
    requires InFile(file, b) && |file| <= SPAN_MAX
    ensures r == WithoutOffset(file, b)
  {
    r := b;
    if b.dataSize < 4 {
      return;
    }
    var field := file[b.dataOffset..b.dataOffset + 4];
    assert field == BlockBytes(file, b)[..4];
    FieldFits(field);
    var tiffOffset: U32 := BeValue(field);
    var skip := 4 + tiffOffset;
    if skip >= b.dataSize {
      return;
    }
    r := b.(chunking := BmffExifTiffOffsetU32Be, auxU32 := tiffOffset, dataOffset := b.dataOffset + skip,
            dataSize := b.dataSize - skip);
  }

  method SkipExifPreamble(file: seq<Byte>, b: Block) returns (r: Block)
    requires InFile(file, b) && |file| <= SPAN_MAX
    ensures r == WithoutMarker(file, b)
  {
    r := b;
    if b.dataSize < 10 {
      return;
    }
    ghost var s := BlockBytes(file, b);
    assert file[b.dataOffset..b.dataOffset + 4] == s[..4];
    if file[b.dataOffset..b.dataOffset + 4] != JpegSegments.EXIF || file[b.dataOffset + 4] != 0 {
      return;
    }
    var tiffOffset := b.dataOffset + 6;
    if tiffOffset + 4 > |file| {
      return;
    }
    if !JpegSegments.TiffAt(file, tiffOffset) {
      return;
    }
    assert JpegSegments.TiffAt(s, 6);
    r := b.(dataOffset := b.dataOffset + 6, dataSize := b.dataSize - 6);
  }
}
