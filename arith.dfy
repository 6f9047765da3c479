/** Small non-linear arithmetic facts the buffer-offset proofs are built from. */
module Arith {

  lemma MulLeMono(a: nat, b: nat, c: nat)
    requires a <= b
    ensures a * c <= b * c
  {
  }

  /** Slot `k` of width `w` in a table of `n` slots lies inside the table. */
  lemma SlotInBounds(k: nat, n: nat, w: nat)
    requires k < n
    ensures k * w + w <= n * w
  {
    MulLeMono(k + 1, n, w);
  }

  /** Quotient and remainder are unique. */
  lemma DivModUnique(k: int, d: int, q: int, r: int)
    requires d > 0 && 0 <= r < d && k == q * d + r
    ensures k / d == q && k % d == r
  {
    var q0, r0 := k / d, k % d;
    assert k == q0 * d + r0;
    if q0 < q {
      MulLeMonoInt(q0 + 1, q, d);
      MulAddOne(q0, d);
    } else if q < q0 {
      MulLeMonoInt(q + 1, q0, d);
      MulAddOne(q, d);
    }
  }

  lemma MulAddOne(a: int, c: int)
    ensures (a + 1) * c == a * c + c
  {
  }


  lemma MulLeMonoInt(a: int, b: int, c: int)
    requires a <= b && c >= 0
    ensures a * c <= b * c
  {
  }

  /** Multiplying by a positive factor does not shrink a natural number. */
  lemma MulGrows(a: nat, b: nat)
    requires b >= 1
    ensures a <= a * b
  {
    MulLeMono(1, b, a);
  }

  lemma MulSucc(k: nat, w: nat)
    requires k > 0
    ensures k * w == w + (k - 1) * w
  {
  }

  /** A pixel index below `w * h` lies in one of the `h` rows. */
  lemma RowBound(q: nat, w: nat, h: nat)
    requires w >= 1 && q < w * h
    ensures q / w < h
  {
    if q / w >= h {
      MulLeMono(h, q / w, w);
    }
  }

  /** Row and column of `y * w + x` for a column `x < w`. */
  lemma Coords(x: int, y: int, w: int)
    requires 0 <= x < w
    ensures (y * w + x) / w == y && (y * w + x) % w == x
  {
    DivModUnique(y * w + x, w, y, x);
  }
}
