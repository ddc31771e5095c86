/** `class Image` of BMPFile.py: two headers and a grid of pixels that its methods fill,
    resample and write out. Files are byte sequences: reading takes the bytes of the file,
    writing returns the bytes it would write. */
module BmpImage {
  import opened Wrappers
  import opened LittleEndian
  import opened Headers
  import opened Pixels
  import opened PixelReader
  import opened Codec
  import opened Resample

  /** Rows `0 .. height - 1` of a copy, cell by cell; the extra last row is not part of it. */
  ghost predicate Resampled(src: seq<seq<Pixel>>, srcWidth: int, srcHeight: int,
                            dst: seq<seq<Pixel>>, width: int, height: int)
    requires srcWidth >= 0 && srcHeight >= -1 && Shaped(src, srcWidth, srcHeight)
    requires width >= 0 && height >= 0 && Shaped(dst, width, height)
    requires (srcHeight > 0 || height == srcHeight) && (srcWidth > 0 || width == srcWidth)
  {
    forall i: nat, j: nat :: i < height && j < width ==>
      CellResampled(src, srcWidth, srcHeight, dst, width, height, i, j)
  }

  /** Cell `(i, j)` of a copy is the source cell the walks of `copy_with_changed_size`
      select, which lies inside the source. */
  ghost predicate CellResampled(src: seq<seq<Pixel>>, srcWidth: int, srcHeight: int,
                                dst: seq<seq<Pixel>>, width: int, height: int, i: nat, j: nat)
    requires srcWidth >= 0 && srcHeight >= -1 && Shaped(src, srcWidth, srcHeight)
    requires width >= 0 && height >= 0 && Shaped(dst, width, height)
    requires (srcHeight > 0 || height == srcHeight) && (srcWidth > 0 || width == srcWidth)
    requires i < height && j < width
  {
    var si := RowSource(MakeAxis(srcHeight, height), i);
    var sj := ColSource(MakeAxis(srcWidth, width), width, i, j);
    0 <= si < srcHeight && 0 <= sj < srcWidth && dst[i][j] == src[si][sj]
  }

  /** The bookkeeping of one walk after a copied pixel (width) or a finished row (height),
      written out as `copy_with_changed_size` does it for either axis. */
  method Advance(ax: Axis, acc: real, index: int) returns (acc': real, index': int)
    ensures Cursor(acc', index') == Step(ax, Cursor(acc, index))
  {
    acc', index' := acc + ax.rate, index;
    if ax.bigger {
      if acc' > 1.0 {
        acc' := acc' - 1.0;
        if ax.rate >= 1.0 {
          acc' := acc' - Trunc(ax.rate) as real;
        }
      } else if index + 1 <= ax.extent - 1 {
        index' := index + 1;
      }
    } else {
      if index + 1 + Trunc(acc') <= ax.extent - 1 {
        index' := index + 1 + Trunc(acc');
      } else {
        index' := ax.extent - 1;
      }
      if acc' > 1.0 {
        if ax.rate > 1.0 {
          acc' := acc' - Trunc(ax.rate) as real;
        } else {
          acc' := acc' - 1.0000001;
        }
      }
    }
  }

  /** The inner loop of `copy_with_changed_size`: one row of `width` pixels, each taken from
      the source row at the width walk's index, which restarts at 0 while the accumulator
      carries over. */
  method CopyRow(srcRow: seq<Pixel>, wAxis: Axis, width: nat, acc: real)
    returns (row: seq<Pixel>, acc': real)
    requires width > 0 ==> AxisOk(wAxis) && Sane(wAxis, Cursor(acc, 0)) && wAxis.extent <= |srcRow|
    ensures |row| == width
    ensures width > 0 ==> row == Picks(srcRow, wAxis, Cursor(acc, 0), width)
    ensures acc' == Walk(wAxis, Cursor(acc, 0), width).acc
  {
    row := [];
    acc' := acc;
    var sourceJ := 0;
    var j := 0;
    while j < width
      invariant 0 <= j <= width && |row| == j
      invariant Cursor(acc', sourceJ) == Walk(wAxis, Cursor(acc, 0), j)
      invariant width > 0 ==> row == Picks(srcRow, wAxis, Cursor(acc, 0), j)
    {
      WalkStays(wAxis, Cursor(acc, 0), j);
      row := row + [srcRow[sourceJ]];
      acc', sourceJ := Advance(wAxis, acc', sourceJ);
      j := j + 1;
    }
  }

  /** The loops of `copy_with_changed_size`: row `i < height` holds the picks of the width
      walk over the height walk's source row, and the last of the `height + 1` rows stays
      black. */
  method ResizeGrid(src: seq<seq<Pixel>>, hAxis: Axis, wAxis: Axis, width: nat, height: nat)
    returns (grid: seq<seq<Pixel>>)
    requires height > 0 ==> Copyable(src, hAxis, wAxis, width)
    ensures grid == ResizedRows(src, hAxis, wAxis, width, height) + [seq(width, _ => BLACK)]
  {
    grid := [];
    var counterWidthTemp, counterHeightTemp := wAxis.rate, hAxis.rate;
    var sourceI := 0;
    var i := 0;
    while i < height
      invariant 0 <= i <= height
      invariant Cursor(counterHeightTemp, sourceI) == Walk(hAxis, Cursor(hAxis.rate, 0), i)
      invariant counterWidthTemp == RowStartAcc(wAxis, width, i)
      invariant grid == ResizedRows(src, hAxis, wAxis, width, i)
    {
      WalkStays(hAxis, Cursor(hAxis.rate, 0), i);
      if width > 0 {
        RowStartSane(wAxis, width, i);
      }
      ghost var start := Cursor(hAxis.rate, 0);
      var row;
      row, counterWidthTemp := CopyRow(src[sourceI], wAxis, width, counterWidthTemp);
      assert counterWidthTemp == RowStartAcc(wAxis, width, i + 1);
      ResizedRowsNext(src, hAxis, wAxis, width, i);
      assert row == RowPicks(src[sourceI], wAxis, width, i);
      grid := grid + [row];
      counterHeightTemp, sourceI := Advance(hAxis, counterHeightTemp, sourceI);
      assert Walk(hAxis, start, i + 1) == Step(hAxis, Walk(hAxis, start, i));
      i := i + 1;
    }
    grid := grid + [seq(width, _ => BLACK)];
  }

  /** A source with the shape of its header feeds both walks of a copy. */
  lemma ResizableSource(src: seq<seq<Pixel>>, srcWidth: int, srcHeight: int, width: int, height: int)
    requires srcWidth >= 0 && srcHeight >= -1 && Shaped(src, srcWidth, srcHeight)
    requires width >= 0 && height >= 0
    requires (srcHeight > 0 || height == srcHeight) && (srcWidth > 0 || width == srcWidth)
    ensures height > 0 ==> Copyable(src, MakeAxis(srcHeight, height), MakeAxis(srcWidth, width), width)
  {
  }

  /** The rows `ResizeGrid` builds are the copy `Resampled` describes. */
  lemma ResizedIsResampled(src: seq<seq<Pixel>>, srcWidth: int, srcHeight: int,
                           dst: seq<seq<Pixel>>, width: int, height: int)
    requires srcWidth >= 0 && srcHeight >= -1 && Shaped(src, srcWidth, srcHeight)
    requires width >= 0 && height >= 0 && Shaped(dst, width, height)
    requires (srcHeight > 0 || height == srcHeight) && (srcWidth > 0 || width == srcWidth)
    requires dst[..height] == ResizedRows(src, MakeAxis(srcHeight, height), MakeAxis(srcWidth, width), width, height)
    ensures Resampled(src, srcWidth, srcHeight, dst, width, height)
  {
    forall i: nat, j: nat | i < height && j < width
      ensures CellResampled(src, srcWidth, srcHeight, dst, width, height, i, j)
    {
      ResizedCell(src, srcWidth, srcHeight, dst, width, height, i, j);
    }
  }

  /** What the grid `ResizeGrid` builds is: the shape of the new header, the copy
      `Resampled` describes, a black last row, and, with unchanged dimensions, the source's
      rows `0 .. height - 1` again. */
  lemma ResizedGrid(src: seq<seq<Pixel>>, srcWidth: int, srcHeight: int,
                    grid: seq<seq<Pixel>>, width: int, height: int)
    requires srcWidth >= 0 && srcHeight >= -1 && Shaped(src, srcWidth, srcHeight)
    requires width >= 0 && height >= 0
    requires (srcHeight > 0 || height == srcHeight) && (srcWidth > 0 || width == srcWidth)
    requires height > 0 ==> Copyable(src, MakeAxis(srcHeight, height), MakeAxis(srcWidth, width), width)
    requires grid == ResizedRows(src, MakeAxis(srcHeight, height), MakeAxis(srcWidth, width), width, height) +
                     [seq(width, _ => BLACK)]
    ensures Shaped(grid, width, height)
    ensures Resampled(src, srcWidth, srcHeight, grid, width, height)
    ensures forall j :: 0 <= j < width ==> grid[height][j] == BLACK
    ensures width == srcWidth && height == srcHeight ==>
      forall i, j :: 0 <= i < height && 0 <= j < width ==> grid[i][j] == src[i][j]
  {
    var rows := ResizedRows(src, MakeAxis(srcHeight, height), MakeAxis(srcWidth, width), width, height);
    assert grid[..height] == rows;
    forall r | 0 <= r < |grid|
      ensures |grid[r]| == width
    {
      if r < height {
        assert grid[r] == rows[r];
      }
    }
    ResizedIsResampled(src, srcWidth, srcHeight, grid, width, height);
    if width == srcWidth && height == srcHeight {
      forall i, j | 0 <= i < height && 0 <= j < width
        ensures grid[i][j] == src[i][j]
      {
        assert CellResampled(src, srcWidth, srcHeight, grid, width, height, i, j);
        SourcesIdentity(height, width, i, j);
      }
    }
  }

  /** One cell of `ResizedIsResampled`. */
  lemma ResizedCell(src: seq<seq<Pixel>>, srcWidth: int, srcHeight: int,
                    dst: seq<seq<Pixel>>, width: int, height: int, i: nat, j: nat)
    requires srcWidth >= 0 && srcHeight >= -1 && Shaped(src, srcWidth, srcHeight)
    requires width >= 0 && height >= 0 && Shaped(dst, width, height)
    requires (srcHeight > 0 || height == srcHeight) && (srcWidth > 0 || width == srcWidth)
    requires dst[..height] == ResizedRows(src, MakeAxis(srcHeight, height), MakeAxis(srcWidth, width), width, height)
    requires i < height && j < width
    ensures CellResampled(src, srcWidth, srcHeight, dst, width, height, i, j)
  {
    var hAxis, wAxis := MakeAxis(srcHeight, height), MakeAxis(srcWidth, width);
    ResizableSource(src, srcWidth, srcHeight, width, height);
    assert dst[i] == dst[..height][i];
    ResizedRowsAt(src, hAxis, wAxis, width, height, i, j);
  }

  /** The `try` block of one pass: blue, green and red from bytes `p`, `p + 1`, `p + 2` into
      a pixel whose blue byte is present; a missing byte ends the block and reports it. */
  method ReadChannels(buf: seq<Byte>, p: nat, px: Pixel) returns (px': Pixel, failed: bool)
    requires p < |buf|
    ensures px' == ReadInto(buf, p, px)
    ensures failed <==> p + 2 >= |buf|
  {
    px' := px.(blue := buf[p]);
    failed := false;
    if p + 1 >= |buf| {
      failed := true;
    } else {
      px' := px'.(green := buf[p + 1]);
      if p + 2 >= |buf| {
        failed := true;
      } else {
        px' := px'.(red := buf[p + 2]);
      }
    }
  }

  /** One pass of the pixel loop of `read_pixels_from_file` for the loop variable `i`:
      three channel reads into the pixel at the computed row and column, blue first; a
      missing byte sets `overheight`. `crashed` is the IndexError of a row index below
      `-(height + 1)`. */
  method ReadPixelAt(buf: seq<Byte>, offset: nat, ih: InfoHeader, i: nat, add: int,
                     grid: seq<seq<Pixel>>, overheight: bool)
    returns (crashed: bool, grid': seq<seq<Pixel>>, overheight': bool)
    requires ReadableInfo(ih) && ih.width > 0 && Shaped(grid, ih.width, ih.height) && add == Add(ih)
    ensures var next := ReadStep(buf, offset, ih, i, ReadState(grid, overheight));
      crashed <==> next.None?
    ensures !crashed ==>
      ReadStep(buf, offset, ih, i, ReadState(grid, overheight)) == Some(ReadState(grid', overheight'))
  {
    grid', overheight' := grid, overheight;
    var p := offset + i;
    if p >= |buf| {
      return false, grid', true;
    }
    var k := i / ColorCounter(ih);
    var row := ih.height - (if add != 0 then 0 else 1) - k / ih.width;
    assert row == ih.height - RowShift(ih) - k / ih.width;
    if row < -(ih.height + 1) {
      return true, grid', overheight';
    }
    var r := if row < 0 then row + ih.height + 1 else row;
    var c := k % ih.width;
    ReadStepCell(buf, offset, ih, i, ReadState(grid, overheight), row, r, c);
    var px, failed := ReadChannels(buf, p, grid[r][c]);
    overheight' := overheight || failed;
    grid' := grid[r := grid[r][c := px]];
    crashed := false;
  }

  /** The pixel loop of `read_pixels_from_file` over a fresh `height + 1`-row grid: the
      loop variable runs from 0 below `image_size + add` in steps of the bytes per pixel.
      None where a pass raises IndexError. */
  method ReadLoop(buf: seq<Byte>, offset: nat, ih: InfoHeader) returns (result: Option<ReadState>)
    requires ReadableInfo(ih)
    ensures result == ReadFrom(buf, offset, ih, 0, ReadState(Blank(ih.width, ih.height), false))
  {
    var grid := Blank(ih.width, ih.height);
    var colorCounter, add;
    if ih.bitCount == 24 {
      colorCounter, add := 3, ih.width * 3;
    } else if ih.bitCount == 32 {
      colorCounter, add := 4, 0;
    } else {
      colorCounter, add := 3, 0;
    }
    assert colorCounter == ColorCounter(ih) && add == Add(ih);
    var overheight := false;
    ghost var init := ReadState(grid, false);
    var i: nat := 0;
    while i < ih.imageSize + add
      invariant Shaped(grid, ih.width, ih.height)
      invariant ReadFrom(buf, offset, ih, i, ReadState(grid, overheight)) ==
                ReadFrom(buf, offset, ih, 0, init)
      decreases ih.imageSize + add - i
    {
      assert ih.width > 0;
      ghost var st := ReadState(grid, overheight);
      var crashed;
      crashed, grid, overheight := ReadPixelAt(buf, offset, ih, i, add, grid, overheight);
      if crashed {
        assert ReadFrom(buf, offset, ih, i, st) == None;
        return None;
      }
      i := i + colorCounter;
    }
    return Some(ReadState(grid, overheight));
  }

  /** The inner pixel loop of `write_image`: one row left to right, blue, green, red and,
      for 32-bit, a zero byte per pixel. */
  method AppendRow(out: seq<Byte>, row: seq<Pixel>, width: nat, quad: bool) returns (res: seq<Byte>)
    requires width <= |row|
    ensures res == out + RowBytes(row, width, quad)
  {
    res := out;
    var j := 0;
    while j < width
      invariant 0 <= j <= width
      invariant res == out + RowBytes(row, j, quad)
    {
      res := res + PixelBytes(row[j], quad);
      assert RowBytes(row, j + 1, quad) == RowBytes(row, j, quad) + PixelBytes(row[j], quad);
      j := j + 1;
    }
  }

  /** The outer pixel loop of `write_image`: rows `top` down to 0 (none when `top` is
      negative). */
  method AppendRows(out: seq<Byte>, grid: seq<seq<Pixel>>, width: nat, top: int, quad: bool)
    returns (res: seq<Byte>)
    requires top < |grid| && Rectangular(grid, width)
    ensures res == out + RowsDown(grid, top, 0, width, quad)
  {
    res := out;
    if top < 0 {
      return;
    }
    var i := top;
    while i >= 0
      invariant -1 <= i <= top
      invariant res == out + RowsDown(grid, top, i + 1, width, quad)
    {
      var rest := RowsDown(grid, top, i + 1, width, quad);
      res := AppendRow(res, grid[i], width, quad);
      assert RowsDown(grid, top, i, width, quad) == rest + RowBytes(grid[i], width, quad);
      assert res == out + (rest + RowBytes(grid[i], width, quad));
      i := i - 1;
    }
  }

  /** The writes of `write_image` once the totals agree: the five header packs (a field too
      wide for its `struct` code stops the write), the pixel rows and the zero trailer. */
  method WriteRecords(fh: FileHeader, ih: InfoHeader, grid: seq<seq<Pixel>>)
    returns (r: Result<seq<Byte>, WriteError>)
    requires ih.width >= 0 && ih.height >= -1 && Shaped(grid, ih.width, ih.height)
    ensures r == Encode(fh, ih, grid)
  {
    if !Packable(fh, ih) {
      return Failure(FieldOutOfRange);
    }
    var out := HeaderBytes(fh, ih);
    if ih.bitCount == 24 {
      out := AppendRows(out, grid, ih.width, ih.height, false);
    } else if ih.bitCount == 32 {
      out := AppendRows(out, grid, ih.width, ih.height - 1, true);
    }
    assert out == HeaderBytes(fh, ih) + PixelBody(ih, grid);
    out := out + PackU16(0);
    return Success(out);
  }

  class Image {
    /** `bitmap_file_header`; None while it is still the bare class, whose fields are None. */
    var fileHeader: Option<FileHeader>
    /** `bitmap_info_header`. */
    var infoHeader: InfoHeader
    /** `rgb`: `height + 1` rows of `width` pixels, row 0 the top row of the picture. */
    var rgb: seq<seq<Pixel>>

    /** The grid has the shape the info header gives it. */
    ghost predicate Valid()
      reads this
    {
      infoHeader.width >= 0 && infoHeader.height >= -1 &&
      Shaped(rgb, infoHeader.width, infoHeader.height)
    }

    /** `Image()`: no file header, no pixels yet. */
    constructor()
      ensures fileHeader == None && infoHeader == DEFAULT_INFO_HEADER && rgb == []
    {
      fileHeader := None;
      infoHeader := DEFAULT_INFO_HEADER;
      rgb := [];
    }

    /** `read_info_from_file`: check the magic number, then read the file header and the
        info header; a short buffer stops it after the file header. */
    method ReadInfoFromFile(buf: seq<Byte>) returns (error: Option<HeaderError>)
      modifies this
      ensures rgb == old(rgb)
      ensures DecodeHeaders(buf).Failure? ==> error == Some(DecodeHeaders(buf).error)
      ensures DecodeHeaders(buf).Failure? ==>
        infoHeader == old(infoHeader) &&
        fileHeader == (if CheckIfFileIsBmp(buf) && |buf| >= 14 then Some(ReadFileHeader(buf).value)
                       else old(fileHeader))
      ensures DecodeHeaders(buf).Success? ==>
        error == None && fileHeader == Some(DecodeHeaders(buf).value.0) &&
        infoHeader == DecodeHeaders(buf).value.1
    {
      if !CheckIfFileIsBmp(buf) {
        return Some(NotABmpFile);
      }
      var fh := ReadFileHeader(buf);
      if fh.Failure? {
        return Some(fh.error);
      }
      fileHeader := Some(fh.value);
      var ih := FillCoreInfo(buf);
      if ih.Failure? {
        return Some(ih.error);
      }
      infoHeader := ih.value;
      return None;
    }

    /** `read_pixels_from_file`: the pixel loop, then the height, grid and size adjustments.
        Returns false where the loop raises IndexError. */
    method ReadPixelsFromFile(buf: seq<Byte>) returns (ok: bool)
      requires fileHeader.Some? && fileHeader.value.offset >= 0 && ReadableInfo(infoHeader)
      modifies this
      ensures ok <==> ReadPixels(buf, old(fileHeader.value), old(infoHeader)).Some?
      ensures !ok ==> fileHeader == old(fileHeader) && infoHeader == old(infoHeader)
      ensures ok ==>
        var (fh, ih, g) := ReadPixels(buf, old(fileHeader.value), old(infoHeader)).value;
        fileHeader == Some(fh) && infoHeader == ih && rgb == g && Valid()
    {
      var ih := infoHeader;
      var offset: nat := fileHeader.value.offset;
      var result := ReadLoop(buf, offset, ih);
      if result.None? {
        return false;
      }
      var grid, overheight := result.value.grid, result.value.overheight;
      rgb := grid;
      if overheight {
        infoHeader := infoHeader.(height := infoHeader.height - 1);
        rgb := rgb[1..];
      }
      var imageSize := ih.width * ih.size * ih.bitCount / 3;
      infoHeader := infoHeader.(imageSize := imageSize);
      fileHeader := Some(FileHeader(offset + imageSize, offset));
      return true;
    }

    /** `Image.read_from_file` on the bytes of a file. */
    static method ReadFromFile(buf: seq<Byte>) returns (r: Result<Image, ReadError>)
      ensures r.Failure? <==> ReadImage(buf).Failure?
      ensures r.Failure? ==> r.error == ReadImage(buf).error
      ensures r.Success? ==>
        var (fh, ih, g) := ReadImage(buf).value;
        fresh(r.value) && r.value.fileHeader == Some(fh) && r.value.infoHeader == ih &&
        r.value.rgb == g && r.value.Valid()
    {
      var img := new Image();
      var error := img.ReadInfoFromFile(buf);
      if error.Some? {
        return Failure(BadHeader(error.value));
      }
      var ok := img.ReadPixelsFromFile(buf);
      if !ok {
        return Failure(RowOutOfRange);
      }
      return Success(img);
    }

    /** `write_image`: make the header totals agree (in place), then the five header packs,
        the pixel rows and the zero trailer. A generated image has no file header, and a
        field too wide for its `struct` code stops the write. */
    method WriteImage() returns (r: Result<seq<Byte>, WriteError>)
      requires fileHeader.Some? ==> Valid()
      modifies this
      ensures rgb == old(rgb)
      ensures old(fileHeader).Some? ==> Valid()
      ensures old(fileHeader).None? ==>
        r == Failure(MissingFileHeader) && fileHeader == old(fileHeader) && infoHeader == old(infoHeader)
      ensures old(fileHeader).Some? ==>
        var (fh, ih) := Normalize(old(fileHeader).value, old(infoHeader));
        fileHeader == Some(fh) && infoHeader == ih && r == Encode(fh, ih, rgb)
    {
      if fileHeader.None? {
        return Failure(MissingFileHeader);
      }
      var fh, ih := fileHeader.value, infoHeader;
      if fh.size != fh.offset + ih.imageSize {
        fh := fh.(offset := 14 + ih.size);
        if ih.bitCount == 24 {
          ih := ih.(imageSize := ih.imageSize + ih.width * 3 - 2);
        }
        fh := fh.(size := fh.offset + ih.imageSize);
        fileHeader, infoHeader := Some(fh), ih;
      }
      assert (fh, ih) == Normalize(old(fileHeader).value, old(infoHeader));
      r := WriteRecords(fh, ih, rgb);
    }

    /** `set_default_pixels`: `height + 1` rows of `width` pixels (none for negative counts),
        every one white; the mode is clamped to 0..255 and then not used. */
    method SetDefaultPixels(mode: int)
      modifies this
      ensures fileHeader == old(fileHeader) && infoHeader == old(infoHeader)
      ensures |rgb| == if infoHeader.height + 1 < 0 then 0 else infoHeader.height + 1
      ensures forall i :: 0 <= i < |rgb| ==>
        |rgb[i]| == (if infoHeader.width < 0 then 0 else infoHeader.width) &&
        forall j :: 0 <= j < |rgb[i]| ==> rgb[i][j] == WHITE
      ensures infoHeader.width >= 0 && infoHeader.height >= -1 ==> Valid()
    {
      var rows := if infoHeader.height + 1 < 0 then 0 else infoHeader.height + 1;
      var cols := if infoHeader.width < 0 then 0 else infoHeader.width;
      var grid := Blank(cols, rows - 1);
      var i := 0;
      while i < rows
        invariant 0 <= i <= rows && |grid| == rows
        invariant forall r :: 0 <= r < rows ==> |grid[r]| == cols
        invariant forall r, c :: 0 <= r < i && 0 <= c < cols ==> grid[r][c] == WHITE
      {
        var j := 0;
        while j < cols
          invariant 0 <= j <= cols && |grid| == rows
          invariant forall r :: 0 <= r < rows ==> |grid[r]| == cols
          invariant forall r, c :: 0 <= r < i && 0 <= c < cols ==> grid[r][c] == WHITE
          invariant forall c :: 0 <= c < j ==> grid[i][c] == WHITE
        {
          grid := grid[i := grid[i][j := WHITE]];
          j := j + 1;
        }
        i := i + 1;
      }
      rgb := grid;
    }

    /** `set_default_header`: the given dimensions and bit count, an image size of
        800 · 600 · (bitCount / 8) whatever the dimensions, and the fixed defaults of the
        other fields. */
    method SetDefaultHeader(width: int := 800, height: int := 600, bitCount: int := 24)
      modifies this
      ensures fileHeader == old(fileHeader) && rgb == old(rgb)
      ensures infoHeader == DEFAULT_INFO_HEADER.(width := width, height := height, bitCount := bitCount,
                                                 imageSize := 800 * 600 * (bitCount / 8))
    {
      infoHeader := infoHeader.(width := width, height := height, bitCount := bitCount);
      infoHeader := infoHeader.(imageSize := 800 * 600 * (bitCount / 8));
      infoHeader := infoHeader.(size := 40, planes := 1, compression := 0);
      infoHeader := infoHeader.(colorUsed := 0, colorImportant := 0);
    }

    /** `Image.set_default`: a generated image, all white, without a file header. */
    static method SetDefault(mode: int := 255, width: int := 800, height: int := 600, bitCount: int := 24)
      returns (img: Image)
      ensures fresh(img) && img.fileHeader == None
      ensures img.infoHeader == DEFAULT_INFO_HEADER.(width := width, height := height, bitCount := bitCount,
                                                     imageSize := 800 * 600 * (bitCount / 8))
      ensures width >= 0 && height >= -1 ==> img.Valid()
      ensures |img.rgb| == if height + 1 < 0 then 0 else height + 1
      ensures forall i :: 0 <= i < |img.rgb| ==> |img.rgb[i]| == if width < 0 then 0 else width
      ensures forall i, j :: 0 <= i < |img.rgb| && 0 <= j < |img.rgb[i]| ==> img.rgb[i][j] == WHITE
    {
      img := new Image();
      img.SetDefaultHeader(width, height, bitCount);
      img.SetDefaultPixels(mode);
    }

    /** `copy_info_header`: a new header with every one of the nine fields copied. */
    function CopyInfoHeader(): (h: InfoHeader)
      reads this
      ensures h == infoHeader
    {
      InfoHeader(infoHeader.size, infoHeader.width, infoHeader.height, infoHeader.planes,
                 infoHeader.bitCount, infoHeader.compression, infoHeader.imageSize,
                 infoHeader.colorUsed, infoHeader.colorImportant)
    }

    /** `copy_with_changed_size`: a new image with the resized headers and a `height + 1`-row
        grid whose rows `0 .. height - 1` are filled by the nearest-neighbour walks; row
        `height` stays black. With unchanged dimensions the copy repeats rows `0 .. height - 1`
        of the source. Python divides by a source dimension that differs from the target. */
    method CopyWithChangedSize(width: int, height: int) returns (img: Image)
      requires Valid() && width >= 0 && height >= 0
      requires height != infoHeader.height ==> infoHeader.height > 0
      requires width != infoHeader.width ==> infoHeader.width > 0
      ensures fresh(img) && img.Valid()
      ensures var (fh, ih) := ResizedHeaders(infoHeader, width, height);
        img.fileHeader == Some(fh) && img.infoHeader == ih
      ensures Resampled(rgb, infoHeader.width, infoHeader.height, img.rgb, width, height)
      ensures forall j :: 0 <= j < width ==> img.rgb[height][j] == BLACK
      ensures width == infoHeader.width && height == infoHeader.height ==>
        forall i, j :: 0 <= i < height && 0 <= j < width ==> img.rgb[i][j] == rgb[i][j]
    {
      var srcWidth, srcHeight := infoHeader.width, infoHeader.height;
      var headers := ResizedHeaders(CopyInfoHeader(), width, height);
      var hAxis := MakeAxis(srcHeight, height);
      var wAxis := MakeAxis(srcWidth, width);
      ResizableSource(rgb, srcWidth, srcHeight, width, height);
      var grid := ResizeGrid(rgb, hAxis, wAxis, width, height);
      ResizedGrid(rgb, srcWidth, srcHeight, grid, width, height);
      img := new Image();
      img.infoHeader := headers.1;
      img.fileHeader := Some(headers.0);
      img.rgb := grid;
    }
  }
}
