/** The nearest-neighbour walk of `copy_with_changed_size`: for each axis a rate derived from
    the old and new extent, an accumulator, and a source index that the loop advances after
    every copied pixel (width) or every finished row (height). Python's floats are modelled
    as exact reals. */
module Resample {

  /** Python's `int()` on a float: truncation toward zero. */
  function Trunc(x: real): (t: int)
    ensures x >= 0.0 ==> 0 <= t && t as real <= x < t as real + 1.0
    ensures x < 0.0 ==> t <= 0 && t as real - 1.0 < x <= t as real
  {
    if x >= 0.0 then x.Floor else -((-x).Floor)
  }

  /** One axis of the resampling: the source extent, `counter_width`/`counter_height` (the
      rate) and `width_bigger`/`height_bigger`. */
  datatype Axis = Axis(extent: int, rate: real, bigger: bool)

  /** The rate and direction for an axis going from `src` to `dst`: the relative growth or
      shrinkage, or rate 0 (as growth) when the extents agree. Python divides by `src`, so a
      differing extent needs a non-zero source. */
  function MakeAxis(src: int, dst: int): (ax: Axis)
    requires src > 0 || dst == src
    ensures ax.extent == src
    ensures ax.bigger <==> dst >= src
    ensures dst > src ==> ax.rate * src as real == (dst - src) as real
    ensures dst < src ==> ax.rate * src as real == (src - dst) as real
    ensures dst == src ==> ax.rate == 0.0
    ensures src >= 1 && dst >= 0 ==> AxisOk(ax)
  {
    if dst > src then Axis(src, (dst - src) as real / src as real, true)
    else if dst < src then Axis(src, (src - dst) as real / src as real, false)
    else Axis(src, 0.0, true)
  }

  /** A walk over an axis with at least one source pixel and a non-negative rate; every
      axis `MakeAxis` builds from a non-empty source and a non-negative target is one. */
  predicate AxisOk(ax: Axis) {
    ax.extent >= 1 && ax.rate >= 0.0
  }

  /** The accumulator (`counter_width_temp`/`counter_height_temp`) and the source index
      (`source_j`/`source_i`). */
  datatype Cursor = Cursor(acc: real, index: int)

  /** The cursor indexes a source pixel, and a shrinking walk's accumulator stays above -1,
      so that truncating it never moves the index backwards. */
  predicate Sane(ax: Axis, c: Cursor) {
    0 <= c.index < ax.extent && (!ax.bigger ==> c.acc > -1.0)
  }

  /** The bookkeeping after one copied pixel or row: add the rate to the accumulator; when
      growing, either pay one whole step out of the accumulator (staying on the same source
      pixel) or advance the index by one, never past the last source pixel; when shrinking,
      advance by one plus the truncated accumulator, clamped to the last source pixel, and
      pay out of an accumulator above one. The walk stays on the source, never moves back,
      moves at most one pixel at a time when growing and at least one (until the last
      pixel) when shrinking. */
  function Step(ax: Axis, c: Cursor): (r: Cursor)
    ensures AxisOk(ax) && Sane(ax, c) ==> Sane(ax, r) && c.index <= r.index
    ensures AxisOk(ax) && Sane(ax, c) && ax.bigger ==> r.index <= c.index + 1
    ensures AxisOk(ax) && Sane(ax, c) && !ax.bigger ==>
      r.index >= c.index + 1 || r.index == ax.extent - 1
  {
    var acc := c.acc + ax.rate;
    if ax.bigger then
      if acc > 1.0 then
        Cursor(if ax.rate >= 1.0 then acc - 1.0 - Trunc(ax.rate) as real else acc - 1.0, c.index)
      else
        Cursor(acc, if c.index + 1 <= ax.extent - 1 then c.index + 1 else c.index)
    else
      var index := if c.index + 1 + Trunc(acc) <= ax.extent - 1 then c.index + 1 + Trunc(acc)
                   else ax.extent - 1;
      var acc' := if acc > 1.0 then
                    (if ax.rate > 1.0 then acc - Trunc(ax.rate) as real else acc - 1.0000001)
                  else acc;
      Cursor(acc', index)
  }

  /** The cursor after `n` steps from `c`. */
  function Walk(ax: Axis, c: Cursor, n: nat): Cursor
    decreases n
  {
    if n == 0 then c else Step(ax, Walk(ax, c, n - 1))
  }

  /** Every cursor of a walk that starts on the source stays on it. */
  lemma {:induction false} WalkStays(ax: Axis, c: Cursor, n: nat)
    requires AxisOk(ax) && Sane(ax, c)
    ensures Sane(ax, Walk(ax, c, n))
    ensures c.index <= Walk(ax, c, n).index
  {
    if n > 0 {
      WalkStays(ax, c, n - 1);
    }
  }

  /** A walk's source index never decreases. */
  lemma {:induction false} WalkMonotone(ax: Axis, c: Cursor, n: nat, m: nat)
    requires AxisOk(ax) && Sane(ax, c) && n <= m
    ensures Walk(ax, c, n).index <= Walk(ax, c, m).index
    decreases m - n
  {
    if n < m {
      WalkMonotone(ax, c, n, m - 1);
      WalkStays(ax, c, m - 1);
      assert Walk(ax, c, m) == Step(ax, Walk(ax, c, m - 1));
    }
  }

  /** Growing never skips a source pixel: after `n` steps the index has moved by at most `n`. */
  lemma {:induction false} WalkGrowsGently(ax: Axis, c: Cursor, n: nat)
    requires AxisOk(ax) && Sane(ax, c) && ax.bigger
    ensures Walk(ax, c, n).index <= c.index + n
  {
    if n > 0 {
      WalkGrowsGently(ax, c, n - 1);
      WalkStays(ax, c, n - 1);
    }
  }

  /** Shrinking never repeats a source pixel: after `n` steps the index has moved by at least
      `n`, or has reached the last source pixel. */
  lemma {:induction false} WalkShrinksSteadily(ax: Axis, c: Cursor, n: nat)
    requires AxisOk(ax) && Sane(ax, c) && !ax.bigger
    ensures Walk(ax, c, n).index >= c.index + n || Walk(ax, c, n).index == ax.extent - 1
  {
    if n > 0 {
      WalkShrinksSteadily(ax, c, n - 1);
      WalkStays(ax, c, n - 1);
    }
  }

  /** With equal extents the rate is 0, so the accumulator stays 0 and the index counts the
      steps up to the last source pixel. */
  lemma {:induction false} WalkIdentity(src: int, n: nat)
    requires src >= 1
    ensures Walk(MakeAxis(src, src), Cursor(0.0, 0), n) == Cursor(0.0, if n < src then n else src - 1)
  {
    if n > 0 {
      WalkIdentity(src, n - 1);
    }
  }

  /** The source items a walk of `n` steps from `start` selects, in order: item `j` is the
      one under the cursor after `j` steps. */
  function Picks<T>(src: seq<T>, ax: Axis, start: Cursor, n: nat): (r: seq<T>)
    requires AxisOk(ax) && Sane(ax, start) && ax.extent <= |src|
    ensures |r| == n
  {
    if n == 0 then []
    else
      WalkStays(ax, start, n - 1);
      Picks(src, ax, start, n - 1) + [src[Walk(ax, start, n - 1).index]]
  }

  /** Item `j` of a walk's picks is the source item under the cursor after `j` steps, and
      that cursor is on the source. */
  lemma {:induction false} PicksAt<T>(src: seq<T>, ax: Axis, start: Cursor, n: nat, j: nat)
    requires AxisOk(ax) && Sane(ax, start) && ax.extent <= |src| && j < n
    ensures 0 <= Walk(ax, start, j).index < ax.extent
    ensures Picks(src, ax, start, n)[j] == src[Walk(ax, start, j).index]
  {
    WalkStays(ax, start, j);
    if j < n - 1 {
      PicksAt(src, ax, start, n - 1, j);
    }
  }

  /** The width accumulator at the start of row `i`: `counter_width_temp` is set once before
      the row loop and carries over from one row to the next, while `source_j` restarts at 0. */
  function RowStartAcc(ax: Axis, width: nat, i: nat): real
    decreases i
  {
    if i == 0 then ax.rate else Walk(ax, Cursor(RowStartAcc(ax, width, i - 1), 0), width).acc
  }

  /** `source_i` while row `i` of the copy is filled. */
  function RowSource(hAxis: Axis, i: nat): int {
    Walk(hAxis, Cursor(hAxis.rate, 0), i).index
  }

  /** `source_j` while cell `(i, j)` of the copy is filled. */
  function ColSource(wAxis: Axis, width: nat, i: nat, j: nat): int {
    Walk(wAxis, Cursor(RowStartAcc(wAxis, width, i), 0), j).index
  }

  /** Every row starts the width walk on the source. */
  lemma {:induction false} RowStartSane(ax: Axis, width: nat, i: nat)
    requires AxisOk(ax)
    ensures Sane(ax, Cursor(RowStartAcc(ax, width, i), 0))
  {
    if i > 0 {
      RowStartSane(ax, width, i - 1);
      WalkStays(ax, Cursor(RowStartAcc(ax, width, i - 1), 0), width);
    }
  }

  /** Every source index of the copy lies inside the source image, the rows are read in
      order and within a row the columns are too. */
  lemma SourcesInRange(hAxis: Axis, wAxis: Axis, width: nat, i: nat, j: nat)
    requires AxisOk(hAxis) && AxisOk(wAxis)
    ensures 0 <= RowSource(hAxis, i) < hAxis.extent
    ensures 0 <= ColSource(wAxis, width, i, j) < wAxis.extent
    ensures RowSource(hAxis, i) <= RowSource(hAxis, i + 1)
    ensures ColSource(wAxis, width, i, j) <= ColSource(wAxis, width, i, j + 1)
  {
    WalkStays(hAxis, Cursor(hAxis.rate, 0), i);
    WalkMonotone(hAxis, Cursor(hAxis.rate, 0), i, i + 1);
    RowStartSane(wAxis, width, i);
    WalkStays(wAxis, Cursor(RowStartAcc(wAxis, width, i), 0), j);
    WalkMonotone(wAxis, Cursor(RowStartAcc(wAxis, width, i), 0), j, j + 1);
  }

  /** With unchanged extents the copy reads cell `(i, j)` of the source for cell `(i, j)`. */
  lemma SourcesIdentity(height: int, width: int, i: nat, j: nat)
    requires height >= 1 && width >= 1 && i < height && j < width
    ensures RowSource(MakeAxis(height, height), i) == i
    ensures ColSource(MakeAxis(width, width), width, i, j) == j
  {
    WalkIdentity(height, i);
    RowStartIdentity(width, i);
    WalkIdentity(width, j);
  }

  /** With unchanged width the accumulator is 0 at the start of every row. */
  lemma {:induction false} RowStartIdentity(width: int, i: nat)
    requires width >= 1
    ensures RowStartAcc(MakeAxis(width, width), width, i) == 0.0
  {
    if i > 0 {
      RowStartIdentity(width, i - 1);
      WalkIdentity(width, width);
    }
  }

  /** What the copy needs of its source: the height walk runs over its rows and, when the
      copy has columns, the width walk runs over every row's pixels. */
  ghost predicate Copyable<T>(src: seq<seq<T>>, hAxis: Axis, wAxis: Axis, width: nat) {
    AxisOk(hAxis) && hAxis.extent <= |src| &&
    (width > 0 ==> AxisOk(wAxis) && forall r :: 0 <= r < hAxis.extent ==> wAxis.extent <= |src[r]|)
  }

  /** The first `n` rows of the copy: row `i` holds the picks of the width walk, started
      with that row's carried-over accumulator, over source row `RowSource(hAxis, i)`. */
  function ResizedRows<T>(src: seq<seq<T>>, hAxis: Axis, wAxis: Axis, width: nat, n: nat): (r: seq<seq<T>>)
    requires n > 0 ==> Copyable(src, hAxis, wAxis, width)
    ensures |r| == n
    ensures forall k :: 0 <= k < n ==> |r[k]| == width
  {
    if n == 0 then []
    else
      WalkStays(hAxis, Cursor(hAxis.rate, 0), n - 1);
      ResizedRows(src, hAxis, wAxis, width, n - 1) + [RowPicks(src[RowSource(hAxis, n - 1)], wAxis, width, n - 1)]
  }

  /** The copy grows one row at a time. */
  lemma ResizedRowsNext<T>(src: seq<seq<T>>, hAxis: Axis, wAxis: Axis, width: nat, i: nat)
    requires Copyable(src, hAxis, wAxis, width)
    ensures 0 <= RowSource(hAxis, i) < hAxis.extent
    ensures ResizedRows(src, hAxis, wAxis, width, i + 1) ==
            ResizedRows(src, hAxis, wAxis, width, i) + [RowPicks(src[RowSource(hAxis, i)], wAxis, width, i)]
  {
    WalkStays(hAxis, Cursor(hAxis.rate, 0), i);
  }

  /** Row `i` of the copy from its source row: the picks of the width walk started with the
      accumulator row `i` inherits (no pixels for an empty row). */
  function RowPicks<T>(srcRow: seq<T>, wAxis: Axis, width: nat, i: nat): (r: seq<T>)
    requires width > 0 ==> AxisOk(wAxis) && wAxis.extent <= |srcRow|
    ensures |r| == width
  {
    if width == 0 then []
    else
      RowStartSane(wAxis, width, i);
      Picks(srcRow, wAxis, Cursor(RowStartAcc(wAxis, width, i), 0), width)
  }

  /** Cell `(i, j)` of the copy is the source cell at the height walk's row and the width
      walk's column, both inside the source. */
  lemma {:induction false} ResizedRowsAt<T>(src: seq<seq<T>>, hAxis: Axis, wAxis: Axis, width: nat, n: nat, i: nat, j: nat)
    requires Copyable(src, hAxis, wAxis, width) && i < n && j < width
    ensures var si, sj := RowSource(hAxis, i), ColSource(wAxis, width, i, j);
      0 <= si < hAxis.extent && 0 <= sj < wAxis.extent &&
      ResizedRows(src, hAxis, wAxis, width, n)[i][j] == src[si][sj]
  {
    WalkStays(hAxis, Cursor(hAxis.rate, 0), i);
    RowStartSane(wAxis, width, i);
    if i < n - 1 {
      ResizedRowsAt(src, hAxis, wAxis, width, n - 1, i, j);
    } else {
      var si := RowSource(hAxis, i);
      assert ResizedRows(src, hAxis, wAxis, width, n)[i] == RowPicks(src[si], wAxis, width, i);
      PicksAt(src[si], wAxis, Cursor(RowStartAcc(wAxis, width, i), 0), width, j);
    }
  }
}
