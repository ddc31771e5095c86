/** Facts about multiplication and division by a variable, which the solver does not find
    on its own; the pixel loops index a grid by `k / width` and `k % width`. */
module Arithmetic {
  /** Multiplying by a natural number keeps the order. */
  lemma {:induction false} MulMonotone(a: int, b: int, k: nat)
    requires a <= b
    ensures a * k <= b * k
  {
    if k > 0 {
      MulMonotone(a, b, k - 1);
    }
  }

  /** Quotient and remainder are the unique pair that rebuilds the dividend. */
  lemma DivModUnique(k: int, width: int, q: int, c: int)
    requires width > 0 && 0 <= c < width && k == q * width + c
    ensures k / width == q && k % width == c
  {
    var q', c' := k / width, k % width;
    assert k == q' * width + c';
    if q' < q {
      MulMonotone(q' + 1, q, width);
      assert false;
    } else if q < q' {
      MulMonotone(q + 1, q', width);
      assert false;
    }
  }

  /** A dividend below `width * m` has a quotient below `m`. */
  lemma DivBelow(k: nat, width: int, m: int)
    requires width > 0 && k < width * m
    ensures k / width < m
  {
    if k / width >= m {
      MulMonotone(m, k / width, width);
      assert false;
    }
  }

  /** A block of `rows` rows of `width` items, `s` bytes each, counted by item. */
  lemma Regroup(s: int, width: int, rows: int)
    ensures s * width * rows == (width * rows) * s
  {
  }
}
