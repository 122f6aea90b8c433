/** Metadata blocks found in a container. */
module Blocks {
  import opened Bytes

  datatype ContainerFormat = UnknownFormat | Jpeg | Png | Webp | Gif | Tiff | X3f | Heif

  datatype BlockKind =
    | UnknownKind | Exif | MakerNote | Xmp | XmpExtended | Icc | IptcIim | PhotoshopIrB | Mpf | Jumbf | Comment | Text

  datatype Chunking =
    | Raw | JpegApp2SeqTotal | JpegXmpExtendedGuidOffset | GifSubBlocks | BmffExifTiffOffsetU32Be | PsIrB8Bim

  datatype Compression = Uncompressed | Deflate | Brotli

  /** Where a block lies (`outer` with its framing, `data` without) and which logical stream it is part of. */
  datatype Block = Block(
    format: ContainerFormat, kind: BlockKind, compression: Compression, chunking: Chunking,
    outerOffset: U64, outerSize: U64, dataOffset: U64, dataSize: U64, id: U32,
    partIndex: U32, partCount: U32, logicalOffset: U64, logicalSize: U64, group: U64, auxU32: U32)

  const NO_BLOCK := Block(UnknownFormat, UnknownKind, Uncompressed, Raw, 0, 0, 0, 0, 0, 0, 0, 0, 0, 0, 0)

  predicate InFile(file: seq<Byte>, b: Block) {
    CheckedRange(b.dataOffset, b.dataSize, |file|)
  }

  function BlockBytes(file: seq<Byte>, b: Block): (s: seq<Byte>)
    requires InFile(file, b)
    ensures |s| == b.dataSize
  {
    file[b.dataOffset..b.dataOffset + b.dataSize]
  }
}
