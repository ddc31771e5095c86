/** The two header blocks at the start of a BMP file: the 14-byte file header
    (BitMapFileHeader) and the 40-byte info header (BitMapInfoHeader), how the codec
    reads them from a buffer and how it writes them. */
module Headers {
  import opened Wrappers
  import opened LittleEndian

  /** The magic number: the bytes 'B', 'M' read as a little-endian 16-bit value. */
  const BMP_HEADER: int := 0x4D42

  /** The value the writer puts in both resolution fields (pixels per metre). */
  const RESOLUTION: int := 2834

  /** Total file size and the offset of the first pixel byte. */
  datatype FileHeader = FileHeader(size: int, offset: int)

  /** The fields of the info header, in file order. */
  datatype InfoHeader = InfoHeader(
    size: int, width: int, height: int, planes: int, bitCount: int,
    compression: int, imageSize: int, colorUsed: int, colorImportant: int)

  /** A fresh `BitMapInfoHeader()`: the fields the reader does not take from the file. */
  const DEFAULT_INFO_HEADER: InfoHeader := InfoHeader(40, 0, 0, 1, 0, 0, 0, 0, 0)

  /** Why reading the headers stops: a wrong magic number, or a buffer too short for a field. */
  datatype HeaderError = NotABmpFile | TruncatedHeader

  /** `check_if_file_is_bmp`: the first two bytes are the magic number. */
  function CheckIfFileIsBmp(buf: seq<Byte>): (ok: bool)
    ensures ok <==> |buf| >= 2 && U16At(buf, 0) == BMP_HEADER
  {
    |buf| >= 2 && buf[..2] == [0x42, 0x4D]
  }

  /** `read_file_header`: the size is the little-endian word at bytes 2..5, the pixel
      offset the word at bytes 10..13; a buffer too short for them makes `unpack` fail. */
  function ReadFileHeader(buf: seq<Byte>): (r: Result<FileHeader, HeaderError>)
    ensures r.Success? <==> |buf| >= 14
    ensures r.Failure? ==> r.error == TruncatedHeader
    ensures r.Success? ==>
      IsU32(r.value.size) && PackU32(r.value.size) == buf[2..6] &&
      IsU32(r.value.offset) && PackU32(r.value.offset) == buf[10..14]
  {
    if |buf| < 14 then Failure(TruncatedHeader)
    else
      UnpackThenPack(buf, 2);
      UnpackThenPack(buf, 10);
      Success(FileHeader(U32At(buf, 0x2), U32At(buf, 0xa)))
  }

  /** `fill_core_info`: width, height, planes and bit count from their fixed offsets,
      the image size estimated from them; every other field keeps its default. */
  function FillCoreInfo(buf: seq<Byte>): (r: Result<InfoHeader, HeaderError>)
    ensures r.Success? <==> |buf| >= 30
    ensures r.Failure? ==> r.error == TruncatedHeader
    ensures r.Success? ==>
      var h := r.value;
      IsU32(h.width) && PackU32(h.width) == buf[18..22] &&
      IsU32(h.height) && PackU32(h.height) == buf[22..26] &&
      IsU16(h.planes) && PackU16(h.planes) == buf[26..28] &&
      IsU16(h.bitCount) && PackU16(h.bitCount) == buf[28..30] &&
      h.imageSize == h.width * h.height * h.bitCount / 8 &&
      h == DEFAULT_INFO_HEADER.(width := h.width, height := h.height, planes := h.planes,
                                bitCount := h.bitCount, imageSize := h.imageSize)
  {
    if |buf| < 30 then Failure(TruncatedHeader)
    else
      UnpackThenPack(buf, 18);
      UnpackThenPack(buf, 22);
      UnpackThenPack16(buf, 26);
      UnpackThenPack16(buf, 28);
      var width, height := U32At(buf, 0x12), U32At(buf, 0x16);
      var planes, bitCount := U16At(buf, 0x1a), U16At(buf, 0x1c);
      Success(DEFAULT_INFO_HEADER.(width := width, height := height, planes := planes,
                                   bitCount := bitCount, imageSize := width * height * bitCount / 8))
  }

  /** `read_info_from_file` on a buffer: the magic number is checked before any field is
      read, so a buffer with the wrong magic is refused however short it is. */
  function DecodeHeaders(buf: seq<Byte>): (r: Result<(FileHeader, InfoHeader), HeaderError>)
    ensures !CheckIfFileIsBmp(buf) ==> r == Failure(NotABmpFile)
    ensures CheckIfFileIsBmp(buf) ==> (r.Success? <==> |buf| >= 30)
    ensures CheckIfFileIsBmp(buf) && |buf| < 30 ==> r == Failure(TruncatedHeader)
    ensures r.Success? ==> r.value == (ReadFileHeader(buf).value, FillCoreInfo(buf).value)
  {
    if !CheckIfFileIsBmp(buf) then Failure(NotABmpFile)
    else
      match ReadFileHeader(buf)
      case Failure(e) => Failure(e)
      case Success(fh) =>
        match FillCoreInfo(buf)
        case Failure(e) => Failure(e)
        case Success(ih) => Success((fh, ih))
  }

  /** Every value the writer packs fits its `struct` code; otherwise `pack` raises. */
  predicate Packable(fh: FileHeader, ih: InfoHeader) {
    IsU32(fh.size + 2) && IsU32(fh.offset) &&
    IsU32(ih.size) && IsU32(ih.width) && IsU32(ih.height) &&
    IsU16(ih.planes) && IsU16(ih.bitCount) &&
    IsU32(ih.compression) && IsU32(ih.imageSize) &&
    IsU32(ih.colorUsed) && IsU32(ih.colorImportant)
  }

  /** The 54 bytes of the five header `pack` calls of `write_image`, in order. */
  function HeaderBytes(fh: FileHeader, ih: InfoHeader): (r: seq<Byte>)
    requires Packable(fh, ih)
    ensures |r| == 54
  {
    (PackU16(BMP_HEADER) + PackU32(fh.size + 2) + PackU32(0) + PackU32(fh.offset)) +
    (PackU32(ih.size) + PackU32(ih.width) + PackU32(ih.height)) +
    (PackU16(ih.planes) + PackU16(ih.bitCount) + PackU32(ih.compression) + PackU32(ih.imageSize)) +
    (PackU32(RESOLUTION) + PackU32(RESOLUTION)) +
    (PackU32(ih.colorUsed) + PackU32(ih.colorImportant))
  }

  /** Each field of the written headers sits at its fixed offset: the file size written two
      more than the header says, the reserved word zero, both resolutions 2834. */
  lemma HeaderFields(fh: FileHeader, ih: InfoHeader)
    requires Packable(fh, ih)
    ensures var r := HeaderBytes(fh, ih);
      U16At(r, 0) == BMP_HEADER && U32At(r, 2) == fh.size + 2 &&
      U32At(r, 6) == 0 && U32At(r, 10) == fh.offset &&
      U32At(r, 14) == ih.size && U32At(r, 18) == ih.width && U32At(r, 22) == ih.height &&
      U16At(r, 26) == ih.planes && U16At(r, 28) == ih.bitCount &&
      U32At(r, 30) == ih.compression && U32At(r, 34) == ih.imageSize &&
      U32At(r, 38) == RESOLUTION && U32At(r, 42) == RESOLUTION &&
      U32At(r, 46) == ih.colorUsed && U32At(r, 50) == ih.colorImportant
  {
    FileHeaderFields(fh, ih);
    SizeFields(fh, ih);
    CountFields(fh, ih);
  }

  /** The first `pack` call: magic number, file size plus two, zero, offset. */
  lemma FileHeaderFields(fh: FileHeader, ih: InfoHeader)
    requires Packable(fh, ih)
    ensures var r := HeaderBytes(fh, ih);
      U16At(r, 0) == BMP_HEADER && U32At(r, 2) == fh.size + 2 &&
      U32At(r, 6) == 0 && U32At(r, 10) == fh.offset
  {
  }

  /** The info header's size, width, height, planes and bit count. */
  lemma SizeFields(fh: FileHeader, ih: InfoHeader)
    requires Packable(fh, ih)
    ensures var r := HeaderBytes(fh, ih);
      U32At(r, 14) == ih.size && U32At(r, 18) == ih.width && U32At(r, 22) == ih.height &&
      U16At(r, 26) == ih.planes && U16At(r, 28) == ih.bitCount
  {
  }

  /** Compression, image size, the two resolutions and the two colour counts. */
  lemma CountFields(fh: FileHeader, ih: InfoHeader)
    requires Packable(fh, ih)
    ensures var r := HeaderBytes(fh, ih);
      U32At(r, 30) == ih.compression && U32At(r, 34) == ih.imageSize &&
      U32At(r, 38) == RESOLUTION && U32At(r, 42) == RESOLUTION &&
      U32At(r, 46) == ih.colorUsed && U32At(r, 50) == ih.colorImportant
  {
  }

  /** The header totals agree: the file size is the pixel offset plus the pixel data size. */
  predicate Consistent(fh: FileHeader, ih: InfoHeader) {
    fh.size == fh.offset + ih.imageSize
  }

  /** The totals `write_image` recomputes before writing: when they disagree the offset
      becomes 14 plus the info-header size, a 24-bit image size grows by `3 * width - 2`,
      and the file size becomes their sum. Either way they agree afterwards, so a second
      write leaves the headers as the first one did. */
  function Normalize(fh: FileHeader, ih: InfoHeader): (r: (FileHeader, InfoHeader))
    ensures Consistent(r.0, r.1)
    ensures Consistent(fh, ih) ==> r == (fh, ih)
    ensures !Consistent(fh, ih) ==>
      r.0.offset == 14 + ih.size &&
      r.1 == ih.(imageSize := ih.imageSize + (if ih.bitCount == 24 then 3 * ih.width - 2 else 0))
  {
    if fh.size == fh.offset + ih.imageSize then (fh, ih)
    else
      var offset := 14 + ih.size;
      var imageSize := if ih.bitCount == 24 then ih.imageSize + ih.width * 3 - 2 else ih.imageSize;
      (FileHeader(offset + imageSize, offset), ih.(imageSize := imageSize))
  }

  /** The headers `copy_with_changed_size` gives the resized image: the source's info header
      with the new width and height, an image size of `width * height * (bitCount / 8)`
      (plus `3 * width - 2` for 24-bit), the offset 14 plus the info-header size, and a file
      size that agrees with them, so writing the image does not recompute them. */
  function ResizedHeaders(ih: InfoHeader, width: int, height: int): (r: (FileHeader, InfoHeader))
    ensures r.1 == ih.(width := width, height := height, imageSize := r.1.imageSize)
    ensures r.1.imageSize ==
      width * height * (ih.bitCount / 8) + (if ih.bitCount == 24 then 3 * width - 2 else 0)
    ensures r.0.offset == 14 + ih.size
    ensures Consistent(r.0, r.1) && Normalize(r.0, r.1) == r
  {
    var info := ih.(height := height, width := width, imageSize := width * height * (ih.bitCount / 8));
    var offset := 14 + info.size;
    var info' := if info.bitCount == 24 then info.(imageSize := info.imageSize + info.width * 3 - 2) else info;
    (FileHeader(offset + info'.imageSize, offset), info')
  }
}
