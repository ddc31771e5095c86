/** The pixel loop of `read_pixels_from_file`: it walks the pixel area in strides of 3 or 4
    bytes, stores each pixel bottom-up into the grid, tolerates reads past the end of the
    buffer, and afterwards drops one row if any read failed. */
module PixelReader {
  import opened Wrappers
  import opened LittleEndian
  import opened Arithmetic
  import opened Headers
  import opened Pixels

  /** `color_counter`: the loop's stride, 4 bytes for 32-bit and 3 for every other bit count. */
  function ColorCounter(ih: InfoHeader): nat {
    if ih.bitCount == 32 then 4 else 3
  }

  /** `add`: a 24-bit loop runs one row of bytes past the image size. */
  function Add(ih: InfoHeader): int {
    if ih.bitCount == 24 then ih.width * 3 else 0
  }

  /** The loop is `range(0, LoopEnd(ih), color_counter)`. */
  function LoopEnd(ih: InfoHeader): int {
    ih.imageSize + Add(ih)
  }

  /** How far below row `height` the first pixel goes: 0 while `add` is non-zero, else 1. */
  function RowShift(ih: InfoHeader): int {
    if Add(ih) != 0 then 0 else 1
  }

  /** What the loop needs of the info header, all of which `fill_core_info` provides:
      non-negative dimensions and the image size it computes from them. */
  predicate ReadableInfo(ih: InfoHeader) {
    ih.width >= 0 && ih.height >= 0 && ih.imageSize == ih.width * ih.height * ih.bitCount / 8
  }

  /** The grid being filled and whether a read has failed (`overheight`). */
  datatype ReadState = ReadState(grid: seq<seq<Pixel>>, overheight: bool)

  /** The three channel reads of one step at byte `p`, in the order of the `try` block:
      blue, green, red; the first byte past the end stops the step, keeping what was stored. */
  function ReadInto(buf: seq<Byte>, p: nat, px: Pixel): Pixel {
    if p >= |buf| then px
    else if p + 1 >= |buf| then px.(blue := buf[p])
    else if p + 2 >= |buf| then px.(blue := buf[p], green := buf[p + 1])
    else Pixel(buf[p + 2], buf[p + 1], buf[p])
  }

  /** One pass of the loop body for the loop variable `i`. A missing byte sets `overheight`.
      A row index below `-(height + 1)` is an IndexError that nothing catches (None); a
      negative one above it selects a row from the end, as Python's indexing does. Only a
      read that succeeds reaches the indexing. */
  function ReadStep(buf: seq<Byte>, offset: nat, ih: InfoHeader, i: nat, st: ReadState): (r: Option<ReadState>)
    requires ReadableInfo(ih) && ih.width > 0 && Shaped(st.grid, ih.width, ih.height)
    ensures r.Some? ==> Shaped(r.value.grid, ih.width, ih.height)
  {
    var p := offset + i;
    if p >= |buf| then Some(st.(overheight := true))
    else
      var k := i / ColorCounter(ih);
      var row := ih.height - RowShift(ih) - k / ih.width;
      if row < -(ih.height + 1) then None
      else
        var r := if row < 0 then row + ih.height + 1 else row;
        var c := k % ih.width;
        var grid := st.grid[r := st.grid[r][c := ReadInto(buf, p, st.grid[r][c])]];
        Some(ReadState(grid, st.overheight || p + 2 >= |buf|))
  }

  /** The loop from the loop variable `i` to its end, starting in state `st`. */
  function ReadFrom(buf: seq<Byte>, offset: nat, ih: InfoHeader, i: nat, st: ReadState): (r: Option<ReadState>)
    requires ReadableInfo(ih) && Shaped(st.grid, ih.width, ih.height)
    ensures r.Some? ==> Shaped(r.value.grid, ih.width, ih.height)
    decreases LoopEnd(ih) - i
  {
    if i >= LoopEnd(ih) then Some(st)
    else
      assert ih.width > 0;
      match ReadStep(buf, offset, ih, i, st)
      case None => None
      case Some(st') => ReadFrom(buf, offset, ih, i + ColorCounter(ih), st')
  }

  /** `read_pixels_from_file` on a buffer: fill a fresh `height + 1`-row grid; if any read
      failed, lower the height by one and drop row 0; then set the image size to
      `width * info.size * bitCount / 3` and the file size to the offset plus that.
      None when the loop raises IndexError. */
  function ReadPixels(buf: seq<Byte>, fh: FileHeader, ih: InfoHeader): (r: Option<(FileHeader, InfoHeader, seq<seq<Pixel>>)>)
    requires fh.offset >= 0 && ReadableInfo(ih)
    ensures r.Some? ==>
      var (fh', ih', g) := r.value;
      (ih'.height == ih.height || ih'.height == ih.height - 1) &&
      Shaped(g, ih.width, ih'.height) &&
      ih' == ih.(height := ih'.height, imageSize := ih.width * ih.size * ih.bitCount / 3) &&
      fh' == FileHeader(fh.offset + ih'.imageSize, fh.offset)
  {
    match ReadFrom(buf, fh.offset, ih, 0, ReadState(Blank(ih.width, ih.height), false))
    case None => None
    case Some(st) =>
      var height := if st.overheight then ih.height - 1 else ih.height;
      var grid := if st.overheight then st.grid[1..] else st.grid;
      var imageSize := ih.width * ih.size * ih.bitCount / 3;
      Some((FileHeader(fh.offset + imageSize, fh.offset), ih.(height := height, imageSize := imageSize), grid))
  }

  /** For 24- and 32-bit images, the number of pixels the loop reads: `height + 1` rows for
      24-bit (the extra row of `add`), `height` rows for 32-bit. */
  function PixelCount(ih: InfoHeader): int {
    ih.width * (ih.height + 1 - RowShift(ih))
  }

  /** The loop variable of a 24- or 32-bit image runs over exactly `PixelCount` strides. */
  lemma LoopEndIsCount(ih: InfoHeader)
    requires ReadableInfo(ih) && (ih.bitCount == 24 || ih.bitCount == 32) && ih.width > 0
    ensures LoopEnd(ih) == PixelCount(ih) * ColorCounter(ih)
    ensures PixelCount(ih) >= 0
  {
    var area := ih.width * ih.height;
    assert ih.imageSize == area * ih.bitCount / 8;
    if ih.bitCount == 24 {
      assert ih.imageSize == 3 * area;
    } else {
      assert ih.imageSize == 4 * area;
    }
  }

  /** Some read of a 24- or 32-bit loop fails: the last pixel's red byte lies past the end. */
  predicate Overheight(buf: seq<Byte>, offset: nat, ih: InfoHeader) {
    PixelCount(ih) > 0 && offset + (PixelCount(ih) - 1) * ColorCounter(ih) + 2 >= |buf|
  }

  /** A buffer holding `PixelCount` whole strides after the offset, and two bytes more, lets
      every read of the loop succeed. */
  lemma FitsAllPixels(buf: seq<Byte>, offset: nat, ih: InfoHeader, n: int)
    requires n == PixelCount(ih) && (n <= 0 || |buf| >= offset + n * ColorCounter(ih) + 2)
    ensures !Overheight(buf, offset, ih)
  {
    if n > 0 {
      assert (n - 1) * ColorCounter(ih) == n * ColorCounter(ih) - ColorCounter(ih);
    }
  }

  /** The stride number of the pixel a 24- or 32-bit loop stores into cell `(r, c)`. */
  function KOf(ih: InfoHeader, r: int, c: int): int {
    (ih.height - RowShift(ih) - r) * ih.width + c
  }

  /** The pixel a 24- or 32-bit loop leaves in cell `(r, c)` of its grid: the `k`-th pixel
      after the offset, `k = (height - RowShift - r) * width + c`, stored blue, green, red,
      so that the first pixel read lands bottom-left; cells no pixel reaches stay black. */
  function Placed(buf: seq<Byte>, offset: nat, ih: InfoHeader, r: int, c: int): Pixel {
    var k := KOf(ih, r, c);
    if k >= 0 then ReadInto(buf, offset + k * ColorCounter(ih), BLACK) else BLACK
  }

  /** A cell at or below the loop's top row has stride number `(top - r) * width + c`. */
  lemma KOfRow(ih: InfoHeader, r: int, c: int, top: int)
    requires ih.width > 0 && 0 <= c < ih.width && top == ih.height - RowShift(ih) && r <= top
    ensures KOf(ih, r, c) == (top - r) * ih.width + c >= 0
  {
    MulMonotone(0, top - r, ih.width);
  }

  /** A cell whose three bytes all lie in the buffer holds them as red, green, blue from
      the last byte to the first. */
  lemma PlacedWhole(buf: seq<Byte>, offset: nat, ih: InfoHeader, r: int, c: int, p: int)
    requires KOf(ih, r, c) >= 0 && p == offset + KOf(ih, r, c) * ColorCounter(ih) && p + 2 < |buf|
    ensures Placed(buf, offset, ih, r, c) == Pixel(buf[p + 2], buf[p + 1], buf[p])
  {
  }

  /** Every cell's stride number is below the number of pixels the loop reads. */
  lemma KOfBelow(ih: InfoHeader, r: int, c: int)
    requires ih.width > 0 && 0 <= r <= ih.height && 0 <= c < ih.width && 0 <= RowShift(ih)
    ensures KOf(ih, r, c) < PixelCount(ih)
  {
    MulMonotone(ih.height - RowShift(ih) - r + 1, ih.height + 1 - RowShift(ih), ih.width);
  }

  /** The cells whose stride number lies in `from .. to - 1` hold the pixel read for that
      stride over what `before` had there; every other cell is as in `before`. */
  ghost predicate Stored(buf: seq<Byte>, offset: nat, ih: InfoHeader, from: nat, to: int,
                         before: seq<seq<Pixel>>, after: seq<seq<Pixel>>)
    requires Shaped(before, ih.width, ih.height) && Shaped(after, ih.width, ih.height)
  {
    forall r, c :: 0 <= r <= ih.height && 0 <= c < ih.width ==>
      after[r][c] ==
        if from <= KOf(ih, r, c) < to then ReadInto(buf, offset + KOf(ih, r, c) * ColorCounter(ih), before[r][c])
        else before[r][c]
  }

  /** Storing strides `a .. b - 1` and then `b .. c - 1` stores strides `a .. c - 1`. */
  lemma StoredConcat(buf: seq<Byte>, offset: nat, ih: InfoHeader, a: nat, b: nat, c: int,
                     g0: seq<seq<Pixel>>, g1: seq<seq<Pixel>>, g2: seq<seq<Pixel>>)
    requires Shaped(g0, ih.width, ih.height) && Shaped(g1, ih.width, ih.height) && Shaped(g2, ih.width, ih.height)
    requires a <= b <= c
    requires Stored(buf, offset, ih, a, b, g0, g1) && Stored(buf, offset, ih, b, c, g1, g2)
    ensures Stored(buf, offset, ih, a, c, g0, g2)
  {
  }

  /** The `k0`-th stride of a 24- or 32-bit loop reads pixel `k0` into the one cell whose
      stride number is `k0`, and fails exactly when the red byte is past the end. */
  lemma StepPlaces(buf: seq<Byte>, offset: nat, ih: InfoHeader, k0: nat, st: ReadState)
    requires ReadableInfo(ih) && (ih.bitCount == 24 || ih.bitCount == 32) && ih.width > 0
    requires Shaped(st.grid, ih.width, ih.height)
    requires k0 < PixelCount(ih)
    ensures ReadStep(buf, offset, ih, k0 * ColorCounter(ih), st).Some?
    ensures var st1 := ReadStep(buf, offset, ih, k0 * ColorCounter(ih), st).value;
      st1.overheight == (st.overheight || offset + k0 * ColorCounter(ih) + 2 >= |buf|) &&
      Stored(buf, offset, ih, k0, k0 + 1, st.grid, st1.grid)
  {
    var cc, w := ColorCounter(ih), ih.width;
    var i := k0 * cc;
    StrideCell(ih, k0);
    var row, col := ih.height - RowShift(ih) - (i / cc) / w, (i / cc) % w;
    ReadStepAt(buf, offset, ih, i, st, row, col);
    var st1 := ReadStep(buf, offset, ih, i, st).value;
    forall r, c | 0 <= r <= ih.height && 0 <= c < w
      ensures st1.grid[r][c] == if k0 <= KOf(ih, r, c) < k0 + 1 then ReadInto(buf, offset + i, st.grid[r][c]) else st.grid[r][c]
    {
      if KOf(ih, r, c) == k0 {
        DivModUnique(k0, w, ih.height - RowShift(ih) - r, c);
      }
    }
  }

  /** The `k`-th stride's loop variable names the row and column of the cell whose stride
      number is `k`, and that row is inside the grid. */
  lemma StrideCell(ih: InfoHeader, k: nat)
    requires ReadableInfo(ih) && (ih.bitCount == 24 || ih.bitCount == 32) && ih.width > 0
    requires k < PixelCount(ih)
    ensures var i, w := k * ColorCounter(ih), ih.width;
      var row := ih.height - RowShift(ih) - (i / ColorCounter(ih)) / w;
      i / ColorCounter(ih) == k && 0 <= row <= ih.height && KOf(ih, row, k % w) == k
  {
    var w := ih.width;
    StrideQuotient(k, ColorCounter(ih));
    DivBelow(k, w, ih.height + 1 - RowShift(ih));
    assert k == (k / w) * w + k % w;
  }

  /** A step whose blue byte is in the buffer and whose row is inside the grid stores the
      pixel it reads into that row and column. */
  lemma ReadStepAt(buf: seq<Byte>, offset: nat, ih: InfoHeader, i: nat, st: ReadState, row: int, col: int)
    requires ReadableInfo(ih) && ih.width > 0 && Shaped(st.grid, ih.width, ih.height)
    requires row == ih.height - RowShift(ih) - (i / ColorCounter(ih)) / ih.width
    requires col == (i / ColorCounter(ih)) % ih.width && 0 <= row <= ih.height
    ensures ReadStep(buf, offset, ih, i, st) ==
      Some(ReadState(st.grid[row := st.grid[row][col := ReadInto(buf, offset + i, st.grid[row][col])]],
                     st.overheight || offset + i + 2 >= |buf|))
  {
    if offset + i >= |buf| {
      assert ReadInto(buf, offset + i, st.grid[row][col]) == st.grid[row][col];
      assert st.grid[row][col := st.grid[row][col]] == st.grid[row];
      assert st.grid[row := st.grid[row]] == st.grid;
    }
  }

  /** A step whose first byte is present and whose row index is in range (from the end when
      negative) reads into that one cell. */
  lemma ReadStepCell(buf: seq<Byte>, offset: nat, ih: InfoHeader, i: nat, st: ReadState, row: int, r: int, c: int)
    requires ReadableInfo(ih) && ih.width > 0 && Shaped(st.grid, ih.width, ih.height)
    requires offset + i < |buf|
    requires row == ih.height - RowShift(ih) - (i / ColorCounter(ih)) / ih.width && row >= -(ih.height + 1)
    requires r == (if row < 0 then row + ih.height + 1 else row) && c == (i / ColorCounter(ih)) % ih.width
    ensures 0 <= r <= ih.height && 0 <= c < ih.width
    ensures ReadStep(buf, offset, ih, i, st) ==
      Some(ReadState(st.grid[r := st.grid[r][c := ReadInto(buf, offset + i, st.grid[r][c])]],
                     st.overheight || offset + i + 2 >= |buf|))
  {
  }

  /** The loop variable of stride `k` divided by the stride gives `k` back. */
  lemma StrideQuotient(k: nat, cc: nat)
    requires cc == 3 || cc == 4
    ensures (k * cc) / cc == k
  {
    DivModUnique(k * cc, cc, k, 0);
  }

  /** The loop from its `k0`-th stride on stores pixel `k >= k0` into the cell it belongs to,
      touches no other cell and never raises; it records a failed read exactly when the
      last pixel's red byte, or an earlier state, says so. */
  lemma {:induction false} ReadFromPlaces(buf: seq<Byte>, offset: nat, ih: InfoHeader, k0: nat, st: ReadState)
    requires ReadableInfo(ih) && (ih.bitCount == 24 || ih.bitCount == 32) && ih.width > 0
    requires Shaped(st.grid, ih.width, ih.height)
    requires k0 <= PixelCount(ih)
    ensures ReadFrom(buf, offset, ih, k0 * ColorCounter(ih), st).Some?
    ensures var st' := ReadFrom(buf, offset, ih, k0 * ColorCounter(ih), st).value;
      var n := PixelCount(ih);
      st'.overheight == (st.overheight || (k0 < n && offset + (n - 1) * ColorCounter(ih) + 2 >= |buf|)) &&
      Stored(buf, offset, ih, k0, n, st.grid, st'.grid)
    decreases PixelCount(ih) - k0
  {
    var cc, n := ColorCounter(ih), PixelCount(ih);
    var i := k0 * cc;
    if k0 == n {
      ReadFromAtEnd(buf, offset, ih, st);
    } else {
      StrideBeforeEnd(ih, k0);
      StepPlaces(buf, offset, ih, k0, st);
      var st1 := ReadStep(buf, offset, ih, i, st).value;
      assert ReadFrom(buf, offset, ih, i, st) == ReadFrom(buf, offset, ih, i + cc, st1);
      ReadFromPlaces(buf, offset, ih, k0 + 1, st1);
      var st' := ReadFrom(buf, offset, ih, i, st).value;
      StoredConcat(buf, offset, ih, k0, k0 + 1, n, st.grid, st1.grid, st'.grid);
    }
  }

  /** Past its last stride the loop stops with the state it has. */
  lemma ReadFromAtEnd(buf: seq<Byte>, offset: nat, ih: InfoHeader, st: ReadState)
    requires ReadableInfo(ih) && (ih.bitCount == 24 || ih.bitCount == 32) && ih.width > 0
    requires Shaped(st.grid, ih.width, ih.height)
    ensures PixelCount(ih) >= 0
    ensures ReadFrom(buf, offset, ih, PixelCount(ih) * ColorCounter(ih), st) == Some(st)
  {
    LoopEndIsCount(ih);
  }

  /** A stride before the last one is inside the loop, the next one starts `ColorCounter`
      bytes later, and it starts no later than the last stride. */
  lemma StrideBeforeEnd(ih: InfoHeader, k: nat)
    requires ReadableInfo(ih) && (ih.bitCount == 24 || ih.bitCount == 32) && ih.width > 0
    requires k < PixelCount(ih)
    ensures k * ColorCounter(ih) < LoopEnd(ih)
    ensures (k + 1) * ColorCounter(ih) == k * ColorCounter(ih) + ColorCounter(ih)
    ensures k * ColorCounter(ih) <= (PixelCount(ih) - 1) * ColorCounter(ih)
  {
    var cc, n := ColorCounter(ih), PixelCount(ih);
    LoopEndIsCount(ih);
    MulMonotone(k + 1, n, cc);
    MulMonotone(k, n - 1, cc);
  }

  /** What `read_pixels_from_file` leaves for a 24- or 32-bit image: it never raises; cell
      `(r, c)` holds the pixel `Placed` there, read bottom-up and stored blue, green, red;
      if any read ran past the end of the buffer the height is one less and the grid is
      the filled one without its row 0, otherwise the height is unchanged. */
  lemma ReadPixelsPlaces(buf: seq<Byte>, fh: FileHeader, ih: InfoHeader)
    requires fh.offset >= 0 && ReadableInfo(ih) && (ih.bitCount == 24 || ih.bitCount == 32)
    ensures ReadPixels(buf, fh, ih).Some?
    ensures var (_, ih', g) := ReadPixels(buf, fh, ih).value;
      var dropped := Overheight(buf, fh.offset, ih);
      ih'.height == (if dropped then ih.height - 1 else ih.height) &&
      forall r, c :: 0 <= r < |g| && 0 <= c < ih.width ==>
        g[r][c] == Placed(buf, fh.offset, ih, if dropped then r + 1 else r, c)
  {
    if ih.width == 0 {
      assert LoopEnd(ih) == 0 && PixelCount(ih) == 0;
    } else {
      ReadPixelsPlacesWide(buf, fh, ih);
    }
  }

  /** ReadPixelsPlaces for a non-empty row width. */
  lemma ReadPixelsPlacesWide(buf: seq<Byte>, fh: FileHeader, ih: InfoHeader)
    requires fh.offset >= 0 && ReadableInfo(ih) && (ih.bitCount == 24 || ih.bitCount == 32) && ih.width > 0
    ensures ReadPixels(buf, fh, ih).Some?
    ensures var (_, ih', g) := ReadPixels(buf, fh, ih).value;
      var dropped := Overheight(buf, fh.offset, ih);
      ih'.height == (if dropped then ih.height - 1 else ih.height) &&
      forall r, c :: 0 <= r < |g| && 0 <= c < ih.width ==>
        g[r][c] == Placed(buf, fh.offset, ih, if dropped then r + 1 else r, c)
  {
    var init := ReadState(Blank(ih.width, ih.height), false);
    ReadFromPlaces(buf, fh.offset, ih, 0, init);
    assert 0 * ColorCounter(ih) == 0;
    var st := ReadFrom(buf, fh.offset, ih, 0, init).value;
    var dropped := Overheight(buf, fh.offset, ih);
    assert st.overheight == dropped;
    ReadPixelsFinish(buf, fh, ih);
    var g := ReadPixels(buf, fh, ih).value.2;
    forall r, c | 0 <= r < |g| && 0 <= c < ih.width
      ensures g[r][c] == Placed(buf, fh.offset, ih, if dropped then r + 1 else r, c)
    {
      var r' := if dropped then r + 1 else r;
      assert g[r][c] == st.grid[r'][c];
      StoredIsPlaced(buf, fh.offset, ih, st.grid, r', c);
    }
  }

  /** After a loop that does not raise, the grid is the filled one, without its row 0 and
      with the height one less when a read failed. */
  lemma ReadPixelsFinish(buf: seq<Byte>, fh: FileHeader, ih: InfoHeader)
    requires fh.offset >= 0 && ReadableInfo(ih)
    requires ReadFrom(buf, fh.offset, ih, 0, ReadState(Blank(ih.width, ih.height), false)).Some?
    ensures var st := ReadFrom(buf, fh.offset, ih, 0, ReadState(Blank(ih.width, ih.height), false)).value;
      ReadPixels(buf, fh, ih).Some? &&
      ReadPixels(buf, fh, ih).value.1.height == (if st.overheight then ih.height - 1 else ih.height) &&
      ReadPixels(buf, fh, ih).value.2 == if st.overheight then st.grid[1..] else st.grid
  {
  }

  /** A grid that holds every stride's pixel over a blank grid holds, in each cell, the
      pixel `Placed` there. */
  lemma StoredIsPlaced(buf: seq<Byte>, offset: nat, ih: InfoHeader, g: seq<seq<Pixel>>, r: int, c: int)
    requires ReadableInfo(ih) && ih.width > 0 && 0 <= RowShift(ih) && Shaped(g, ih.width, ih.height)
    requires Stored(buf, offset, ih, 0, PixelCount(ih), Blank(ih.width, ih.height), g)
    requires 0 <= r <= ih.height && 0 <= c < ih.width
    ensures g[r][c] == Placed(buf, offset, ih, r, c)
  {
    KOfBelow(ih, r, c);
  }
}
