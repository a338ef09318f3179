/**
 * Facts about multiplication, division and remainder that the solver does not
 * find on its own: the display is indexed row-major as `y * width + x`, and the
 * colour cube as `36 * r + 6 * g + b`.
 */
module Arith {

  lemma {:induction false} MulMono(a: nat, b: nat, w: nat)
    ensures a <= b ==> a * w <= b * w
  {
    if a < b {
      MulMono(a, b - 1, w);
      assert b * w == (b - 1) * w + w;
    }
  }

  /** Euclidean division is unique: `q * w + r` with `r < w` has quotient `q` and remainder `r`. */
  lemma DivModUnique(n: nat, w: nat, q: nat, r: nat)
    requires r < w && n == q * w + r
    ensures n / w == q && n % w == r
  {
    var q', r' := n / w, n % w;
    assert n == q' * w + r';
    assert (q' + 1) * w == q' * w + w;
    assert (q + 1) * w == q * w + w;
    MulMono(q' + 1, q, w);
    MulMono(q + 1, q', w);
  }

  /** Position `(x, y)` of a `w`-wide, `h`-high raster lies inside its `w * h` cells. */
  lemma RowMajorBound(w: nat, h: nat, x: nat, y: nat)
    requires x < w && y < h
    ensures y * w + x < w * h
  {
    MulMono(y + 1, h, w);
    assert (y + 1) * w == y * w + w;
  }

  /** Every index below `w * h` is in one of the `h` rows. */
  lemma RowMajorRow(w: nat, h: nat, k: nat)
    requires 0 < w && k < w * h
    ensures k / w < h
  {
    var q, r := k / w, k % w;
    assert k == q * w + r;
    MulMono(h, q, w);
  }

  /** Row `y` of a `w`-wide raster of `h` rows starts at `y * w` and ends where row `y + 1` starts. */
  lemma RowMajorNextRow(w: nat, h: nat, y: nat, start: nat)
    requires y < h && start == y * w
    ensures start + w == (y + 1) * w && start + w <= w * h
  {
    MulMono(y + 1, h, w);
  }

  /** After the last of the `h` rows, the whole `w * h` raster has been covered. */
  lemma RowMajorEnd(w: nat, h: nat, y: nat, k: nat)
    requires y == h && k == y * w
    ensures k == w * h
  {
  }

  /** Row-major position `(x, y)` is recovered from its index by division and remainder. */
  lemma RowMajorCoordinates(w: nat, x: nat, y: nat)
    requires x < w
    ensures (y * w + x) / w == y && (y * w + x) % w == x
  {
    DivModUnique(y * w + x, w, y, x);
  }

  /** Index order is row-major order: a smaller index is in an earlier row, or earlier in the same row. */
  lemma RowMajorOrder(w: nat, i: nat, j: nat)
    requires 0 < w && i < j
    ensures i / w < j / w || (i / w == j / w && i % w < j % w)
  {
    var qi, ri, qj, rj := i / w, i % w, j / w, j % w;
    assert i == qi * w + ri;
    assert j == qj * w + rj;
    assert (qj + 1) * w == qj * w + w;
    MulMono(qj + 1, qi, w);
  }
}
