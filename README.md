# BMP codec model

A Dafny model of `BMPFile.py`, a small codec for uncompressed 24- and 32-bit Windows BMP
files. A file is a 14-byte file header (`BitMapFileHeader`: magic `BM`, file size, pixel
offset) and a 40-byte info header (`BitMapInfoHeader`), little-endian, followed by the pixel
rows. The model covers:

- **Header reading**: `check_if_file_is_bmp`, `read_file_header`, `fill_core_info` and
  `read_info_from_file`.
- **The pixel reader** `read_pixels_from_file`. It walks the pixel bytes in strides of 3 or 4
  and fills a grid bottom-up, blue, green, red. A read past the end of the buffer costs one
  row.
- **The writer** `write_image`, as the bytes it writes. It makes the header totals agree,
  then writes the 54 header bytes, the pixel rows bottom-up and a 2-byte zero trailer.
- **The generator and the resampler**: `set_default_header`, `set_default_pixels`,
  `set_default`, `copy_info_header` and `copy_with_changed_size`.

The code's own conventions are kept as they are:

- every grid has `height + 1` rows;
- the 24-bit writer emits all `height + 1` rows, without row padding, while the 32-bit writer
  emits `height` rows;
- a 24-bit image size gains `3 * width - 2` whenever the writer or the resampler recomputes it;
- the file size is written two larger than the header holds;
- the generator's image size is `800 * 600 * (bitCount / 8)` whatever the dimensions, and it
  paints every pixel white whatever the mode;
- after reading, the image size is `width * 40 * bitCount / 3`.

Files are byte sequences (`seq<Byte>`, a byte being an `int` in `0 .. 255`). Reading takes the
bytes of the file. Writing returns the bytes it would write, or the error that would stop it.

Modules, in dependency order:

- `Wrappers`: Option and Result.
- `LittleEndian`: `struct` packing and unpacking.
- `Headers`: the two header records, parsing, the 54 written header bytes, the writer's
  total recomputation and the resampler's headers.
- `Pixels`: the `RGB` record, grid shapes and the writer's row bytes.
- `Arithmetic`: facts about multiplication and division.
- `PixelReader`: the reader's loop as a function of its loop variable, and where each pixel
  lands.
- `Codec`: the written file and the write/read round trip.
- `Resample`: the two nearest-neighbour walks of the resampler.
- `BmpImage`: the `Image` class, whose methods update its headers and grid in place, and the
  loops of the reader, the writer and the resampler.

## Model

| member | source | states |
|---|---|---|
| Headers.CheckIfFileIsBmp | BMPFile.py:52-54 | accepts exactly the buffers of at least two bytes whose first little-endian 16-bit word is the magic 0x4D42 (`BM`) |
| Headers.ReadFileHeader | BMPFile.py:57-62 | succeeds exactly when the buffer has at least 14 bytes; the size packs back to bytes 2..5 and the offset to bytes 10..13, both unsigned 32-bit; a shorter buffer is a truncation error |
| Headers.FillCoreInfo | BMPFile.py:65-72 | succeeds exactly when the buffer has at least 30 bytes; width and height pack back to bytes 18..21 and 22..25, planes and bit count to 26..27 and 28..29; the image size is `width * height * bitCount / 8`; every other field is the default |
| Headers.DecodeHeaders | BMPFile.py:104-108 | a wrong magic is refused before any field is read, whatever the length; with the magic, it succeeds exactly when the buffer has at least 30 bytes, and fails as truncated otherwise, with the two headers read as above |
| Headers.HeaderBytes | BMPFile.py:128-132 | the five header packs take 54 bytes |
| Headers.HeaderFields | BMPFile.py:128-132 | each of the 15 written fields reads back at its offset: magic, size + 2, 0, offset, info size, width, height, planes, bit count, compression, image size, 2834 twice, colours used, colours important |
| Headers.Normalize | BMPFile.py:120-124 | afterwards size equals offset plus image size; agreeing totals are kept; otherwise the offset becomes 14 + info size, and a 24-bit image size grows by `3 * width - 2` |
| Headers.ResizedHeaders | BMPFile.py:213-225 | the source info header with the new width and height; image size `W * H * (bitCount / 8)`, plus `3W - 2` for 24-bit; offset 14 + info size; totals that agree, so the writer keeps them |
| Pixels.Blank | BMPFile.py:306-308 | `height + 1` rows of `width` black pixels |
| Pixels.PixelBytes | BMPFile.py:136-146 | a pixel is written blue, green, red, and a 0 byte for 32-bit |
| Pixels.RowBytesLength | BMPFile.py:135-146 | a row of `n` pixels takes `n` strides of 3 or 4 bytes, with no padding |
| Pixels.RowsDownLength | BMPFile.py:134-146 | rows `top` down to `bottom` take `top + 1 - bottom` rows of `width` strides |
| Pixels.RowBytesAt | BMPFile.py:135-146 | byte `x` of pixel `c` sits at `c * stride + x` of its row's bytes |
| Pixels.RowsDownAt | BMPFile.py:133-146 | cell `(r, c)` is written at pixel position `(top - r) * width + c` of the bottom-up rows |
| Codec.Encode | BMPFile.py:128-148 | the write succeeds exactly when every packed field fits its `struct` code; otherwise it fails on the out-of-range field |
| Codec.EncodeLayout | BMPFile.py:128-148 | the file is 54 header bytes, then `3 * W * (H + 1)` pixel bytes for 24-bit, `4 * W * H` for 32-bit or none otherwise, then two zero bytes |
| Codec.BodyLength | BMPFile.py:133-147 | the length of the pixel rows for 24-bit, 32-bit and any other bit count |
| Codec.Encode24At | BMPFile.py:133-139 | byte `x` of 24-bit cell `(r, c)` sits at `54 + ((H - r) * W + c) * 3 + x` of the file, for every row `0 .. H` |
| Codec.Encode32At | BMPFile.py:140-147 | byte `x` of 32-bit cell `(r, c)` sits at `54 + ((H - 1 - r) * W + c) * 4 + x`, for rows `0 .. H - 1` |
| Codec.HeadersRoundTrip | BMPFile.py:52-72 | reading back the written headers: the magic checks, the size comes back two larger, the offset is unchanged, and width, height, planes and bit count come back with the estimated image size |
| Codec.ReadImage | BMPFile.py:150-155 | a header failure is reported as such; success means the headers decoded, the offset and width are the file's, and the grid has `height + 1` rows of `width` pixels |
| Codec.PlacedBack24 | BMPFile.py:133-139 | the reader's placement of pixel `(H - r) * W + c` puts each written 24-bit cell back where it was |
| Codec.PlacedBack32 | BMPFile.py:140-147 | the same for 32-bit rows `0 .. H - 1`; row `H` gets no pixel and stays black |
| Codec.Fits24 | BMPFile.py:133-139 | a written 24-bit file holds every pixel the reader asks for, so no row is dropped |
| Codec.Fits32 | BMPFile.py:140-147 | a written 32-bit file holds every pixel the reader asks for |
| Codec.GridBack24 | BMPFile.py:305-343 | the pixel loop on a written 24-bit file keeps the height and returns the grid itself |
| Codec.GridBack32 | BMPFile.py:305-343 | the pixel loop on a written 32-bit file keeps the height and returns rows `0 .. H - 1` plus a black row |
| Codec.RoundTrip24 | BMPFile.py:110-155 | writing a 24-bit image with offset 54 and reading the file gives back the same grid, width and height; the image size becomes `W * 40 * 24 / 3` and the size the offset plus that |
| Codec.RoundTrip32 | BMPFile.py:110-155 | the 32-bit round trip gives rows `0 .. H - 1` back and a black last row, which the writer leaves out |
| PixelReader.ReadStep | BMPFile.py:323-331 | one pass of the loop keeps the grid's shape |
| PixelReader.ReadFrom | BMPFile.py:322-331 | the loop from any loop variable on keeps the grid's shape |
| PixelReader.ReadPixels | BMPFile.py:305-343 | afterwards the height is the same or one less and the grid has `height + 1` rows; the image size is `width * size * bitCount / 3`; the file size is the offset plus that |
| PixelReader.LoopEndIsCount | BMPFile.py:309-322 | the 24-bit loop reads `W * (H + 1)` pixels (the extra `add` row) and the 32-bit loop reads `W * H` |
| PixelReader.FitsAllPixels | BMPFile.py:323-331 | a buffer holding every stride and two bytes more makes no read fail |
| PixelReader.KOfBelow | BMPFile.py:323-325 | every cell of the grid is reached by a pixel the loop reads |
| PixelReader.StepPlaces | BMPFile.py:323-331 | one stride stores its pixel into the cell of its row and column and touches no other cell; `overheight` is set exactly when its red byte is missing |
| PixelReader.ReadStepCell | BMPFile.py:323-328 | a pass whose first byte is present indexes the row from the end when it is negative, as Python does, and reads into that one cell |
| PixelReader.ReadFromPlaces | BMPFile.py:322-331 | for 24- and 32-bit the loop never raises; each stride's pixel lands in its own cell; a read fails exactly when the last pixel's red byte is past the end |
| PixelReader.ReadPixelsPlaces | BMPFile.py:305-343 | for 24- and 32-bit: no IndexError; when a read failed, the height drops by one and row 0 is gone, otherwise it is kept; each remaining cell holds the pixel read for it, blue, green, red |
| PixelReader.StoredIsPlaced | BMPFile.py:323-328 | after the whole loop, a cell holds the pixel whose stride number belongs to it |
| Resample.Trunc | BMPFile.py:268-299 | Python's `int()` on a float truncates toward zero |
| Resample.MakeAxis | BMPFile.py:231-252 | the rate is the relative growth or shrinkage of the extent (0 when equal), the direction is recorded, and a non-empty source gives a usable axis |
| Resample.Step | BMPFile.py:261-301 | one step stays on the source and never moves back; growing moves at most one pixel; shrinking moves at least one, or clamps to the last pixel |
| Resample.WalkStays | BMPFile.py:254-301 | every cursor of a walk indexes a source pixel |
| Resample.WalkMonotone | BMPFile.py:254-301 | a walk's source index never decreases |
| Resample.WalkGrowsGently | BMPFile.py:261-290 | growing, the index moves by at most the number of steps |
| Resample.WalkShrinksSteadily | BMPFile.py:272-301 | shrinking, the index moves by at least the number of steps, or sits on the last source pixel |
| Resample.WalkIdentity | BMPFile.py:237-249 | with equal extents the accumulator stays 0 and the index counts the steps, up to the last pixel |
| Resample.Picks | BMPFile.py:256-260 | a row copy takes one source item per step |
| Resample.PicksAt | BMPFile.py:256-260 | item `j` of a row copy is the source item under the cursor after `j` steps |
| Resample.RowStartSane | BMPFile.py:250-256 | the width accumulator carries over from row to row, yet every row starts the width walk on the source |
| Resample.SourcesInRange | BMPFile.py:231-301 | every source row and column index lies inside the source; rows are read in order, and so are the columns within a row |
| Resample.SourcesIdentity | BMPFile.py:237-249 | with unchanged dimensions, cell `(i, j)` reads source cell `(i, j)` |
| Resample.RowStartIdentity | BMPFile.py:247-249 | with unchanged width, every row starts with accumulator 0 |
| Resample.ResizedRows | BMPFile.py:254-260 | the first `n` rows of the copy, each `width` pixels long |
| Resample.ResizedRowsAt | BMPFile.py:254-301 | cell `(i, j)` of the copy is the source cell under the height walk's row and the width walk's column, both inside the source |
| BmpImage.Advance | BMPFile.py:261-301 | the in-place accumulator and index updates of either axis make exactly one step of the walk |
| BmpImage.CopyRow | BMPFile.py:255-280 | the inner loop copies the picks of the width walk and hands on the accumulator it leaves |
| BmpImage.ResizeGrid | BMPFile.py:226-301 | the loops build the copy's rows `0 .. H - 1` and leave row `H` black |
| BmpImage.ResizedGrid | BMPFile.py:226-301 | the built grid has the new shape and is the cell-by-cell copy; its last row is black; with unchanged dimensions it repeats the source's rows `0 .. H - 1` |
| BmpImage.ResizedIsResampled | BMPFile.py:254-301 | the built rows are the copy, cell by cell |
| BmpImage.ReadChannels | BMPFile.py:326-331 | blue, green, red are read in that order, and a missing byte ends the `try` block and is reported |
| BmpImage.ReadPixelAt | BMPFile.py:323-331 | one pass of the loop body computes exactly the pass the reader's function describes, and raises exactly when that pass does |
| BmpImage.ReadLoop | BMPFile.py:307-331 | the strided loop over a fresh grid ends in the state the reader's function gives, or raises where it does |
| BmpImage.AppendRow | BMPFile.py:135-146 | the inner writer loop appends one row's pixel bytes, left to right |
| BmpImage.AppendRows | BMPFile.py:133-146 | the outer writer loop appends rows `top` down to 0, or none when `top` is negative |
| BmpImage.WriteRecords | BMPFile.py:128-148 | the writes after the totals agree produce exactly the encoded file, or the packing error |
| BmpImage.Image.constructor | BMPFile.py:96-102 | a new image has no file header and no pixels |
| BmpImage.Image.ReadInfoFromFile | BMPFile.py:104-108 | the headers are stored as decoded, or the decoding error is returned; on a failure the info header is kept, and the file header is replaced only when the magic checked and 14 bytes were there; the grid is untouched |
| BmpImage.Image.ReadPixelsFromFile | BMPFile.py:305-343 | the new headers and grid are what the reader's function gives, and the shape invariant holds; it fails exactly where the loop raises, and then both headers are kept |
| BmpImage.Image.ReadFromFile | BMPFile.py:150-155 | a fresh image holding exactly what `ReadImage` reads, or its error |
| BmpImage.Image.WriteImage | BMPFile.py:110-148 | an image without a file header cannot be written, whatever its grid; otherwise the headers are normalized in place, the grid is unchanged, and the output is the encoded file for the normalized headers |
| BmpImage.Image.SetDefaultPixels | BMPFile.py:157-170 | `height + 1` rows (none for negative counts) of `width` pixels, every one white whatever the mode; headers unchanged |
| BmpImage.Image.SetDefaultHeader | BMPFile.py:172-181 | the given width, height and bit count; image size `800 * 600 * (bitCount / 8)`; info size 40, one plane, no compression, no colour counts |
| BmpImage.Image.SetDefault | BMPFile.py:183-188 | a fresh image with the default header and no file header; `height + 1` rows (none for negative counts) of `width` pixels (none for a negative width), all white |
| BmpImage.Image.CopyInfoHeader | BMPFile.py:190-201 | a header equal to the image's own, field for field |
| BmpImage.Image.CopyWithChangedSize | BMPFile.py:213-302 | a fresh image with the resized headers and the new shape; rows `0 .. H - 1` are the nearest-neighbour copy; row `H` is black; with unchanged dimensions the rows repeat the source's; the source is not modified |

## Left out

- File I/O is left out: `open_file`, and the reopen-with-`(1)`-suffix loop of `write_image`
  on PermissionError. Reading takes the file's bytes and writing returns them.
- A write that stops on a `struct.error` partway through has already written part of the
  file. The model returns only the error.
- The resampler's accumulators are exact reals, not IEEE doubles, so rounding is not modelled.
  `1.0000001` is taken as the exact decimal.
- Python's class-object aliasing is not modelled. `Image()` stores the header classes
  themselves, so `set_default_header` changes class attributes shared by every image, and a
  generated image's file-header fields are `None`. The model gives each image its own
  records, and an absent file header (`None`) makes `WriteImage` fail as the TypeError at
  line 120 would.
- `__copy__`, `RGBQuad` and `rgb_quad`, the `print` calls and `if False` blocks, the
  module-level script (lines 352-373), and the wrapper functions (lines 376-392) are not part
  of this model. `Interface.py`, the GUI, is not part of this model either.
- The row-padding and compressed formats of BMP are not modelled. The code neither reads nor
  writes them.
- BmpImage.Image.CopyWithChangedSize: requires non-negative target dimensions, and a source
  dimension above 0 where it differs from the target. In Python a zero source dimension
  raises ZeroDivisionError, and negative targets build odd grids; neither is modelled.
- BmpImage.Image.CopyWithChangedSize: rows are built whole and stored one by one. Python
  writes the three channels cell by cell into a preallocated grid. The resulting grid is the
  same.
- PixelReader.ReadPixels: requires non-negative width and height and the image size that
  `fill_core_info` computes. These hold whenever the headers were read from a file, which is
  the method's only use.
- BmpImage.Image.ReadPixelsFromFile: has the same requirements as `PixelReader.ReadPixels`.
- PixelReader.ReadPixelsPlaces: states where each pixel lands only for 24- and 32-bit images.
  For another bit count the loop is still modelled exactly by `ReadFrom`, including Python's
  negative row indices and the IndexError.
- BmpImage.Image.WriteImage: requires, when the image has a file header, a grid of
  `height + 1` rows of `width` pixels. Every image with a file header that the code builds
  has that shape. A misshapen grid would raise IndexError in Python, after part of the file
  was written.
- BmpImage.Image.ReadPixelsFromFile: when the loop raises IndexError, the model leaves `rgb`
  as it was. Python has already replaced it with the partly filled grid; that grid is not
  modelled.
- The reader's IndexError is modelled as the failure `RowOutOfRange`; the program itself
  does not catch it.
