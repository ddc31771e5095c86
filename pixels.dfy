/** Pixels, the pixel grid every image holds, and the bytes the writer emits for a grid. */
module Pixels {
  import opened LittleEndian
  import opened Arithmetic

  /** `RGB`: one pixel, held by value. */
  datatype Pixel = Pixel(red: Byte, green: Byte, blue: Byte)

  /** `RGB()`: the value of a cell nothing has written. */
  const BLACK: Pixel := Pixel(0, 0, 0)

  /** The colour the generator fills an image with. */
  const WHITE: Pixel := Pixel(255, 255, 255)

  /** Every row holds `width` pixels. */
  ghost predicate Rectangular(grid: seq<seq<Pixel>>, width: int) {
    forall r :: 0 <= r < |grid| ==> |grid[r]| == width
  }

  /** The shape of every grid the codec builds: `height + 1` rows of `width` pixels. */
  ghost predicate Shaped(grid: seq<seq<Pixel>>, width: int, height: int) {
    |grid| == height + 1 && Rectangular(grid, width)
  }

  /** `[[RGB() for j in range(width)] for i in range(height + 1)]`: a fresh grid whose every
      cell is its own black pixel. */
  function Blank(width: nat, height: int): (g: seq<seq<Pixel>>)
    requires height >= -1
    ensures Shaped(g, width, height)
    ensures forall r, c :: 0 <= r < |g| && 0 <= c < width ==> g[r][c] == BLACK
  {
    seq(height + 1, _ => seq(width, _ => BLACK))
  }

  /** Bytes per pixel in the file: 4 with the reserved byte, 3 without. */
  function Stride(quad: bool): nat {
    if quad then 4 else 3
  }

  /** Byte `x` of a pixel as the file stores it: blue, green, red, then a zero byte. */
  function Channel(p: Pixel, x: nat): Byte {
    if x == 0 then p.blue else if x == 1 then p.green else if x == 2 then p.red else 0
  }

  /** The `pack("<B", ...)` calls for one pixel: blue, green, red, and 0 for 32-bit. */
  function PixelBytes(p: Pixel, quad: bool): (r: seq<Byte>)
    ensures |r| == Stride(quad)
    ensures forall x :: 0 <= x < |r| ==> r[x] == Channel(p, x)
  {
    [p.blue, p.green, p.red] + (if quad then [0] else [])
  }

  /** The bytes of the first `n` pixels of a row, left to right. */
  function RowBytes(row: seq<Pixel>, n: nat, quad: bool): (r: seq<Byte>)
    requires n <= |row|
  {
    if n == 0 then [] else RowBytes(row, n - 1, quad) + PixelBytes(row[n - 1], quad)
  }

  /** The bytes of rows `top`, `top - 1`, ..., `bottom`, in that order: the writer's
      bottom-up storage of a top-down grid. */
  function RowsDown(grid: seq<seq<Pixel>>, top: int, bottom: nat, width: nat, quad: bool): (r: seq<Byte>)
    requires top < |grid| && Rectangular(grid, width)
    decreases top + 1 - bottom
  {
    if top < bottom then []
    else RowsDown(grid, top, bottom + 1, width, quad) + RowBytes(grid[bottom], width, quad)
  }

  /** A row's first `n` pixels take `n` strides. */
  lemma {:induction false} RowBytesLength(row: seq<Pixel>, n: nat, quad: bool)
    requires n <= |row|
    ensures |RowBytes(row, n, quad)| == n * Stride(quad)
  {
    if n > 0 {
      RowBytesLength(row, n - 1, quad);
    }
  }

  /** Rows `top` down to `bottom` take `top + 1 - bottom` rows of `width` strides. */
  lemma {:induction false} RowsDownLength(grid: seq<seq<Pixel>>, top: int, bottom: nat, width: nat, quad: bool)
    requires top < |grid| && Rectangular(grid, width)
    ensures |RowsDown(grid, top, bottom, width, quad)| ==
            if top < bottom then 0 else (top + 1 - bottom) * width * Stride(quad)
    decreases top + 1 - bottom
  {
    if top >= bottom {
      RowsDownLength(grid, top, bottom + 1, width, quad);
      RowBytesLength(grid[bottom], width, quad);
      var m, s := top - bottom, Stride(quad);
      assert (m + 1) * width == m * width + width;
      assert (m * width + width) * s == m * width * s + width * s;
    }
  }

  /** Pixel `c` of a row sits at byte `c * Stride(quad)` of the row's bytes. */
  lemma {:induction false} RowBytesAt(row: seq<Pixel>, n: nat, quad: bool, c: nat, x: nat)
    requires c < n <= |row| && x < Stride(quad)
    ensures c * Stride(quad) + x < |RowBytes(row, n, quad)| &&
            RowBytes(row, n, quad)[c * Stride(quad) + x] == Channel(row[c], x)
  {
    RowBytesLength(row, n - 1, quad);
    if c < n - 1 {
      RowBytesAt(row, n - 1, quad, c, x);
    }
  }

  /** Position `(a, c)` of a block of `m` rows of `width` pixels, `s` bytes each, lies
      inside the block. */
  lemma PositionInside(a: nat, m: nat, width: nat, c: nat, s: nat, x: nat)
    requires a < m && c < width && x < s
    ensures 0 <= (a * width + c) * s + x < m * width * s
  {
    MulMonotone(a + 1, m, width);
    MulMonotone(a * width + c + 1, m * width, s);
  }

  /** Cell `(r, c)` sits at pixel position `(top - r) * width + c` of the emitted rows. */
  lemma {:induction false} RowsDownAt(grid: seq<seq<Pixel>>, top: int, bottom: nat, width: nat,
                                      quad: bool, r: int, c: nat, x: nat)
    requires top < |grid| && Rectangular(grid, width)
    requires bottom <= r <= top && c < width && x < Stride(quad)
    ensures var pos := ((top - r) * width + c) * Stride(quad) + x;
      0 <= pos < |RowsDown(grid, top, bottom, width, quad)| &&
      RowsDown(grid, top, bottom, width, quad)[pos] == Channel(grid[r][c], x)
    decreases top + 1 - bottom
  {
    var s := Stride(quad);
    var upper := RowsDown(grid, top, bottom + 1, width, quad);
    var here := RowBytes(grid[bottom], width, quad);
    assert RowsDown(grid, top, bottom, width, quad) == upper + here;
    var a := top - r;
    var pos := (a * width + c) * s + x;
    RowsDownLength(grid, top, bottom + 1, width, quad);
    RowBytesLength(grid[bottom], width, quad);
    assert |upper| == (top - bottom) * width * s;
    if r == bottom {
      assert pos == (top - bottom) * width * s + (c * s + x);
      RowBytesAt(grid[bottom], width, quad, c, x);
    } else {
      PositionInside(a, top - bottom, width, c, s, x);
      RowsDownAt(grid, top, bottom + 1, width, quad, r, c, x);
    }
  }
}
