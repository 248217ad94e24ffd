/** Small facts about Euclidean division used by the codecs and the row-major indexing. */
module Arith {

  /** Division by a positive modulus is determined by any quotient/remainder pair. */
  lemma {:induction false} DivModUnique(k: int, m: int, q: int, r: int)
    requires 0 < m && 0 <= r < m && k == q * m + r
    ensures k / m == q && k % m == r
  {
    var q' := k / m;
    if q' > q {
      MulMonotone(q + 1, q', m);
    } else if q' < q {
      MulMonotone(q' + 1, q, m);
    }
  }

  lemma {:induction false} MulMonotone(a: int, b: int, m: int)
    requires a <= b && 0 <= m
    ensures a * m <= b * m
  {
    assert b * m - a * m == (b - a) * m;
  }

  /** Row-major index arithmetic: the pixel at column x of row y sits at x + y * w. */
  lemma {:induction false} RowMajor(x: int, y: int, w: int)
    requires 0 <= x < w
    ensures (x + y * w) / w == y && (x + y * w) % w == x
  {
    DivModUnique(x + y * w, w, y, x);
  }

  /** The last index of a w-by-h image is below w * h. */
  lemma {:induction false} RowMajorBound(x: int, y: int, w: int, h: int)
    requires 0 <= x < w && 0 <= y < h
    ensures 0 <= x + y * w < w * h
  {
    assert y * w <= (h - 1) * w;
  }
}
