/** What `write_image` writes, as a byte sequence, and the round trip through the reader. */
module Codec {
  import opened Wrappers
  import opened LittleEndian
  import opened Arithmetic
  import opened Headers
  import opened Pixels
  import opened PixelReader

  /** Why writing stops: a generated image has no integer file-header fields (a TypeError
      at the first comparison), or a value does not fit its `struct` code. */
  datatype WriteError = MissingFileHeader | FieldOutOfRange

  /** The pixel rows `write_image` emits after the headers: for 24-bit, rows `height` down to
      0, three bytes a pixel, no row padding; for 32-bit, rows `height - 1` down to 0, four
      bytes a pixel; nothing for any other bit count. */
  function PixelBody(ih: InfoHeader, grid: seq<seq<Pixel>>): seq<Byte>
    requires ih.width >= 0 && ih.height >= -1 && Shaped(grid, ih.width, ih.height)
  {
    if ih.bitCount == 24 then RowsDown(grid, ih.height, 0, ih.width, false)
    else if ih.bitCount == 32 then RowsDown(grid, ih.height - 1, 0, ih.width, true)
    else []
  }

  /** The concatenated `file.write` calls of `write_image` for headers whose totals are
      already consistent: the 54 header bytes, the pixel rows, and a 2-byte zero trailer. */
  function Encode(fh: FileHeader, ih: InfoHeader, grid: seq<seq<Pixel>>): (r: Result<seq<Byte>, WriteError>)
    requires ih.width >= 0 && ih.height >= -1 && Shaped(grid, ih.width, ih.height)
    ensures r.Success? <==> Packable(fh, ih)
    ensures r.Failure? ==> r.error == FieldOutOfRange
  {
    if !Packable(fh, ih) then Failure(FieldOutOfRange)
    else Success(HeaderBytes(fh, ih) + PixelBody(ih, grid) + PackU16(0))
  }

  /** The frame of a written file: the 54 header bytes, the pixel rows (3·W·(H+1) bytes for
      24-bit, 4·W·H for 32-bit, none otherwise) and two zero bytes. */
  lemma EncodeLayout(fh: FileHeader, ih: InfoHeader, grid: seq<seq<Pixel>>)
    requires ih.width >= 0 && ih.height >= -1 && Shaped(grid, ih.width, ih.height)
    requires Packable(fh, ih)
    ensures var out := Encode(fh, ih, grid).value;
      var w, h := ih.width, ih.height;
      |out| == 54 + (if ih.bitCount == 24 then 3 * w * (h + 1)
                     else if ih.bitCount == 32 && h >= 1 then 4 * w * h else 0) + 2 &&
      out[..54] == HeaderBytes(fh, ih) &&
      out[|out| - 2..] == [0, 0]
  {
    var out := Encode(fh, ih, grid).value;
    assert out == HeaderBytes(fh, ih) + PixelBody(ih, grid) + [0, 0];
    BodyLength(ih, grid);
  }

  /** Where a 24-bit file holds cell `(r, c)`: pixel position `(height - r) * width + c` after
      the headers, blue, green, red; row `height` comes first. */
  lemma Encode24At(fh: FileHeader, ih: InfoHeader, grid: seq<seq<Pixel>>, r: int, c: int, x: int)
    requires ih.width >= 0 && ih.height >= -1 && Shaped(grid, ih.width, ih.height)
    requires Packable(fh, ih) && ih.bitCount == 24
    requires 0 <= r <= ih.height && 0 <= c < ih.width && 0 <= x < 3
    ensures var out, i := Encode(fh, ih, grid).value, 54 + ((ih.height - r) * ih.width + c) * 3 + x;
      54 <= i < |out| - 2 && out[i] == Channel(grid[r][c], x)
  {
    Cell24(ih, grid, r, c, x);
    InBody(fh, ih, grid, ((ih.height - r) * ih.width + c) * 3 + x);
  }

  /** Where a 32-bit file holds cell `(r, c)`: pixel position `(height - 1 - r) * width + c`
      after the headers, blue, green, red, 0; row `height` is not written. */
  lemma Encode32At(fh: FileHeader, ih: InfoHeader, grid: seq<seq<Pixel>>, r: int, c: int, x: int)
    requires ih.width >= 0 && ih.height >= -1 && Shaped(grid, ih.width, ih.height)
    requires Packable(fh, ih) && ih.bitCount == 32
    requires 0 <= r < ih.height && 0 <= c < ih.width && 0 <= x < 4
    ensures var out, i := Encode(fh, ih, grid).value, 54 + ((ih.height - 1 - r) * ih.width + c) * 4 + x;
      54 <= i < |out| - 2 && out[i] == Channel(grid[r][c], x)
  {
    Cell32(ih, grid, r, c, x);
    InBody(fh, ih, grid, ((ih.height - 1 - r) * ih.width + c) * 4 + x);
  }

  /** The three colour bytes of a 24-bit cell whose pixel position is `k`. */
  lemma Encode24Pixel(fh: FileHeader, ih: InfoHeader, grid: seq<seq<Pixel>>, r: int, c: int, k: int)
    requires ih.width >= 0 && ih.height >= -1 && Shaped(grid, ih.width, ih.height)
    requires Packable(fh, ih) && ih.bitCount == 24
    requires 0 <= r <= ih.height && 0 <= c < ih.width && 0 <= k == (ih.height - r) * ih.width + c
    ensures var out, p := Encode(fh, ih, grid).value, 54 + k * 3;
      p + 2 < |out| && out[p] == grid[r][c].blue && out[p + 1] == grid[r][c].green &&
      out[p + 2] == grid[r][c].red
  {
    Encode24At(fh, ih, grid, r, c, 0);
    Encode24At(fh, ih, grid, r, c, 1);
    Encode24At(fh, ih, grid, r, c, 2);
  }

  /** The three colour bytes of a 32-bit cell whose pixel position is `k`. */
  lemma Encode32Pixel(fh: FileHeader, ih: InfoHeader, grid: seq<seq<Pixel>>, r: int, c: int, k: int)
    requires ih.width >= 0 && ih.height >= -1 && Shaped(grid, ih.width, ih.height)
    requires Packable(fh, ih) && ih.bitCount == 32
    requires 0 <= r < ih.height && 0 <= c < ih.width && 0 <= k == (ih.height - 1 - r) * ih.width + c
    ensures var out, p := Encode(fh, ih, grid).value, 54 + k * 4;
      p + 2 < |out| && out[p] == grid[r][c].blue && out[p + 1] == grid[r][c].green &&
      out[p + 2] == grid[r][c].red
  {
    Encode32At(fh, ih, grid, r, c, 0);
    Encode32At(fh, ih, grid, r, c, 1);
    Encode32At(fh, ih, grid, r, c, 2);
  }

  /** Byte `j` of the pixel rows is byte `54 + j` of the file. */
  lemma InBody(fh: FileHeader, ih: InfoHeader, grid: seq<seq<Pixel>>, j: int)
    requires ih.width >= 0 && ih.height >= -1 && Shaped(grid, ih.width, ih.height)
    requires Packable(fh, ih) && 0 <= j < |PixelBody(ih, grid)|
    ensures 54 + j < |Encode(fh, ih, grid).value| - 2
    ensures Encode(fh, ih, grid).value[54 + j] == PixelBody(ih, grid)[j]
  {
    var hb, body := HeaderBytes(fh, ih), PixelBody(ih, grid);
    assert Encode(fh, ih, grid).value == hb + body + [0, 0];
  }

  /** The length of the pixel rows: 3·W·(H+1) bytes for 24-bit, 4·W·H for 32-bit. */
  lemma BodyLength(ih: InfoHeader, grid: seq<seq<Pixel>>)
    requires ih.width >= 0 && ih.height >= -1 && Shaped(grid, ih.width, ih.height)
    ensures |PixelBody(ih, grid)| ==
      if ih.bitCount == 24 then 3 * ih.width * (ih.height + 1)
      else if ih.bitCount == 32 && ih.height >= 1 then 4 * ih.width * ih.height
      else 0
  {
    var w, h := ih.width, ih.height;
    if ih.bitCount == 24 {
      RowsDownLength(grid, h, 0, w, false);
      assert (h + 1 - 0) * w * Stride(false) == 3 * w * (h + 1);
    } else if ih.bitCount == 32 {
      RowsDownLength(grid, h - 1, 0, w, true);
      assert (h - 1 + 1 - 0) * w * Stride(true) == 4 * w * h;
    }
  }

  /** One byte of a 24-bit cell inside the pixel rows. */
  lemma Cell24(ih: InfoHeader, grid: seq<seq<Pixel>>, r: int, c: int, x: int)
    requires ih.width >= 0 && ih.height >= -1 && Shaped(grid, ih.width, ih.height)
    requires ih.bitCount == 24
    requires 0 <= r <= ih.height && 0 <= c < ih.width && 0 <= x < 3
    ensures var i := ((ih.height - r) * ih.width + c) * 3 + x;
      0 <= i < |PixelBody(ih, grid)| && PixelBody(ih, grid)[i] == Channel(grid[r][c], x)
  {
    assert PixelBody(ih, grid) == RowsDown(grid, ih.height, 0, ih.width, false);
    RowsDownAt(grid, ih.height, 0, ih.width, false, r, c, x);
  }

  /** One byte of a 32-bit cell inside the pixel rows. */
  lemma Cell32(ih: InfoHeader, grid: seq<seq<Pixel>>, r: int, c: int, x: int)
    requires ih.width >= 0 && ih.height >= -1 && Shaped(grid, ih.width, ih.height)
    requires ih.bitCount == 32
    requires 0 <= r < ih.height && 0 <= c < ih.width && 0 <= x < 4
    ensures var i := ((ih.height - 1 - r) * ih.width + c) * 4 + x;
      0 <= i < |PixelBody(ih, grid)| && PixelBody(ih, grid)[i] == Channel(grid[r][c], x)
  {
    assert PixelBody(ih, grid) == RowsDown(grid, ih.height - 1, 0, ih.width, true);
    RowsDownAt(grid, ih.height - 1, 0, ih.width, true, r, c, x);
  }

  /** Reading back the headers of a written file: the magic number checks, the file size
      comes back two larger than the header said, the offset unchanged; the info header is
      the default one with the written width, height, planes and bit count and the image
      size `fill_core_info` estimates from them (the written size, compression and colour
      counts are not read). */
  lemma HeadersRoundTrip(fh: FileHeader, ih: InfoHeader, grid: seq<seq<Pixel>>)
    requires ih.width >= 0 && ih.height >= -1 && Shaped(grid, ih.width, ih.height)
    requires Packable(fh, ih)
    ensures DecodeHeaders(Encode(fh, ih, grid).value) ==
      Success((FileHeader(fh.size + 2, fh.offset),
               DEFAULT_INFO_HEADER.(width := ih.width, height := ih.height, planes := ih.planes,
                                    bitCount := ih.bitCount,
                                    imageSize := ih.width * ih.height * ih.bitCount / 8)))
  {
    var out := Encode(fh, ih, grid).value;
    var hb, rest := HeaderBytes(fh, ih), PixelBody(ih, grid) + [0, 0];
    HeaderFields(fh, ih);
    assert out == hb + rest;
    FieldsInPrefix(hb, rest, 0);
    FieldsInPrefix(hb, rest, 2);
    FieldsInPrefix(hb, rest, 10);
    FieldsInPrefix(hb, rest, 18);
    FieldsInPrefix(hb, rest, 22);
    FieldsInPrefix(hb, rest, 26);
    FieldsInPrefix(hb, rest, 28);
    assert CheckIfFileIsBmp(out);
    assert ReadFileHeader(out).value == FileHeader(fh.size + 2, fh.offset);
  }

  /** Why reading a file stops: a header error, or a pixel whose row index is out of range
      (the IndexError of the pixel loop, which nothing catches). */
  datatype ReadError = BadHeader(cause: HeaderError) | RowOutOfRange

  /** `Image.read_from_file` on the bytes of a file: the headers, then the pixel loop. */
  function ReadImage(buf: seq<Byte>): (r: Result<(FileHeader, InfoHeader, seq<seq<Pixel>>), ReadError>)
    ensures DecodeHeaders(buf).Failure? ==> r == Failure(BadHeader(DecodeHeaders(buf).error))
    ensures r.Success? ==>
      var (fh, ih, g) := r.value;
      DecodeHeaders(buf).Success? && fh.offset == DecodeHeaders(buf).value.0.offset &&
      ih.width == DecodeHeaders(buf).value.1.width && Shaped(g, ih.width, ih.height)
  {
    match DecodeHeaders(buf)
    case Failure(e) => Failure(BadHeader(e))
    case Success((fh, ih)) =>
      match ReadPixels(buf, fh, ih)
      case None => Failure(RowOutOfRange)
      case Some(image) => Success(image)
  }

  /** Cell `(r, c)` of a written 24-bit grid is what the pixel loop stores there. */
  lemma PlacedBack24(fh: FileHeader, ih: InfoHeader, grid: seq<seq<Pixel>>, ih': InfoHeader, r: int, c: int)
    requires ih.width >= 0 && ih.height >= -1 && Shaped(grid, ih.width, ih.height)
    requires Packable(fh, ih) && ih.bitCount == 24
    requires ih'.width == ih.width && ih'.height == ih.height && ih'.bitCount == 24
    requires 0 <= r <= ih.height && 0 <= c < ih.width
    ensures Placed(Encode(fh, ih, grid).value, 54, ih', r, c) == grid[r][c]
  {
    var out, w, h := Encode(fh, ih, grid).value, ih.width, ih.height;
    assert RowShift(ih') == 0;
    KOfRow(ih', r, c, h);
    var k := KOf(ih', r, c);
    Encode24Pixel(fh, ih, grid, r, c, k);
    PlacedWhole(out, 54, ih', r, c, 54 + k * 3);
    var px := grid[r][c];
    assert Placed(out, 54, ih', r, c) == Pixel(px.red, px.green, px.blue) == px;
  }

  /** The info header the reader ends with after reading back a written file: the default
      one with the written width, height, planes and bit count, and the image size
      `width * 40 * bitCount / 3` that `read_pixels_from_file` sets. */
  function ReadBackInfo(ih: InfoHeader): InfoHeader {
    DEFAULT_INFO_HEADER.(width := ih.width, height := ih.height, planes := ih.planes,
                         bitCount := ih.bitCount,
                         imageSize := ih.width * DEFAULT_INFO_HEADER.size * ih.bitCount / 3)
  }

  /** A written 24-bit file holds every pixel the reader's loop asks for. */
  lemma Fits24(fh: FileHeader, ih: InfoHeader, grid: seq<seq<Pixel>>, ih': InfoHeader)
    requires ih.width >= 0 && ih.height >= -1 && Shaped(grid, ih.width, ih.height)
    requires Packable(fh, ih) && ih.bitCount == 24
    requires ih'.width == ih.width && ih'.height == ih.height && ih'.bitCount == 24
    ensures !Overheight(Encode(fh, ih, grid).value, 54, ih')
  {
    var w, h := ih.width, ih.height;
    EncodeLayout(fh, ih, grid);
    var n := PixelCount(ih');
    if w > 0 {
      assert RowShift(ih') == 0 && n == w * (h + 1);
      Regroup(3, w, h + 1);
    }
    FitsAllPixels(Encode(fh, ih, grid).value, 54, ih', n);
  }

  /** Writing a 24-bit image whose pixel offset is 54 and reading the file back gives the
      same grid, all `height + 1` rows of it, with the same width and height. */
  lemma RoundTrip24(fh: FileHeader, ih: InfoHeader, grid: seq<seq<Pixel>>)
    requires ih.width >= 0 && ih.height >= -1 && Shaped(grid, ih.width, ih.height)
    requires Packable(fh, ih) && fh.offset == 54 && ih.bitCount == 24
    ensures var back := ReadBackInfo(ih);
      ReadImage(Encode(fh, ih, grid).value) ==
        Success((FileHeader(54 + back.imageSize, 54), back, grid))
  {
    var out := Encode(fh, ih, grid).value;
    HeadersRoundTrip(fh, ih, grid);
    var (fh', ih') := DecodeHeaders(out).value;
    GridBack24(fh, ih, grid, ih');
  }

  /** The pixel loop on a written 24-bit file, from the headers read back: no read fails,
      so no row is dropped, and every cell comes back. */
  lemma GridBack24(fh: FileHeader, ih: InfoHeader, grid: seq<seq<Pixel>>, ih': InfoHeader)
    requires ih.width >= 0 && ih.height >= -1 && Shaped(grid, ih.width, ih.height)
    requires Packable(fh, ih) && fh.offset == 54 && ih.bitCount == 24
    requires ih' == DEFAULT_INFO_HEADER.(width := ih.width, height := ih.height, planes := ih.planes,
                                         bitCount := 24, imageSize := ih.width * ih.height * 24 / 8)
    ensures var r := ReadPixels(Encode(fh, ih, grid).value, FileHeader(fh.size + 2, 54), ih');
      r.Some? && r.value.1.height == ih.height && r.value.2 == grid
  {
    var out, w, h := Encode(fh, ih, grid).value, ih.width, ih.height;
    var fh' := FileHeader(fh.size + 2, 54);
    EncodeLayout(fh, ih, grid);
    ReadPixelsPlaces(out, fh', ih');
    Fits24(fh, ih, grid, ih');
    var back := ReadPixels(out, fh', ih').value;
    var g := back.2;
    assert back.1.height == h;
    assert Shaped(g, w, h);
    forall r | 0 <= r < |g|
      ensures g[r] == grid[r]
    {
      forall c | 0 <= c < w
        ensures g[r][c] == grid[r][c]
      {
        PlacedBack24(fh, ih, grid, ih', r, c);
      }
    }
    assert g == grid;
  }

  /** A written 32-bit file holds every pixel the reader's loop asks for. */
  lemma Fits32(fh: FileHeader, ih: InfoHeader, grid: seq<seq<Pixel>>, ih': InfoHeader)
    requires ih.width >= 0 && ih.height >= -1 && Shaped(grid, ih.width, ih.height)
    requires Packable(fh, ih) && ih.bitCount == 32
    requires ih'.width == ih.width && ih'.height == ih.height && ih'.bitCount == 32
    ensures !Overheight(Encode(fh, ih, grid).value, 54, ih')
  {
    var w, h := ih.width, ih.height;
    EncodeLayout(fh, ih, grid);
    var n := PixelCount(ih');
    if w > 0 {
      assert RowShift(ih') == 1 && n == w * h;
      Regroup(4, w, h);
    }
    FitsAllPixels(Encode(fh, ih, grid).value, 54, ih', n);
  }

  /** Writing a 32-bit image whose pixel offset is 54 and reading the file back gives rows
      0 to `height - 1` of the grid and a black row `height`, which the writer leaves out;
      width and height are the same. */
  lemma RoundTrip32(fh: FileHeader, ih: InfoHeader, grid: seq<seq<Pixel>>)
    requires ih.width >= 0 && ih.height >= -1 && Shaped(grid, ih.width, ih.height)
    requires Packable(fh, ih) && fh.offset == 54 && ih.bitCount == 32
    ensures var back := ReadBackInfo(ih);
      ReadImage(Encode(fh, ih, grid).value) ==
        Success((FileHeader(54 + back.imageSize, 54), back, grid[..ih.height] + Blank(ih.width, 0)))
  {
    var out := Encode(fh, ih, grid).value;
    HeadersRoundTrip(fh, ih, grid);
    var (fh', ih') := DecodeHeaders(out).value;
    GridBack32(fh, ih, grid, ih');
  }

  /** The pixel loop on a written 32-bit file, from the headers read back: no read fails,
      rows 0 to `height - 1` come back and row `height` stays black. */
  lemma GridBack32(fh: FileHeader, ih: InfoHeader, grid: seq<seq<Pixel>>, ih': InfoHeader)
    requires ih.width >= 0 && ih.height >= -1 && Shaped(grid, ih.width, ih.height)
    requires Packable(fh, ih) && fh.offset == 54 && ih.bitCount == 32
    requires ih' == DEFAULT_INFO_HEADER.(width := ih.width, height := ih.height, planes := ih.planes,
                                         bitCount := 32, imageSize := ih.width * ih.height * 32 / 8)
    ensures var r := ReadPixels(Encode(fh, ih, grid).value, FileHeader(fh.size + 2, 54), ih');
      r.Some? && r.value.1.height == ih.height && r.value.2 == grid[..ih.height] + Blank(ih.width, 0)
  {
    var out, w, h := Encode(fh, ih, grid).value, ih.width, ih.height;
    var fh' := FileHeader(fh.size + 2, 54);
    EncodeLayout(fh, ih, grid);
    ReadPixelsPlaces(out, fh', ih');
    Fits32(fh, ih, grid, ih');
    var back := ReadPixels(out, fh', ih').value;
    var g := back.2;
    assert back.1.height == h;
    assert Shaped(g, w, h);
    var expected := grid[..h] + Blank(w, 0);
    assert |g| == |expected|;
    forall r | 0 <= r < |g|
      ensures g[r] == expected[r]
    {
      forall c | 0 <= c < w
        ensures g[r][c] == expected[r][c]
      {
        PlacedBack32(fh, ih, grid, ih', r, c);
      }
    }
    assert g == expected;
  }

  /** Cell `(r, c)` of a written 32-bit grid is what the pixel loop stores there: the written
      pixel for rows below `height`, black for row `height`. */
  lemma PlacedBack32(fh: FileHeader, ih: InfoHeader, grid: seq<seq<Pixel>>, ih': InfoHeader, r: int, c: int)
    requires ih.width >= 0 && ih.height >= -1 && Shaped(grid, ih.width, ih.height)
    requires Packable(fh, ih) && ih.bitCount == 32
    requires ih'.width == ih.width && ih'.height == ih.height && ih'.bitCount == 32
    requires 0 <= r <= ih.height && 0 <= c < ih.width
    ensures Placed(Encode(fh, ih, grid).value, 54, ih', r, c) == if r < ih.height then grid[r][c] else BLACK
  {
    var out, w, h := Encode(fh, ih, grid).value, ih.width, ih.height;
    assert RowShift(ih') == 1;
    var k := KOf(ih', r, c);
    if r < h {
      KOfRow(ih', r, c, h - 1);
      Encode32Pixel(fh, ih, grid, r, c, k);
      PlacedWhole(out, 54, ih', r, c, 54 + k * 4);
      var px := grid[r][c];
      assert Placed(out, 54, ih', r, c) == Pixel(px.red, px.green, px.blue) == px;
    } else {
      assert (h - RowShift(ih') - r) * w == -w;
      assert k < 0;
    }
  }
}
