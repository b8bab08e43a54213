/** Index arithmetic for row-major matrices.

    Both the playing field and a piece's shape matrix store cell (x, y) of a
    w-wide matrix at linear index y * w + x, and recover the coordinates of a
    linear index i as (i % w, i / w). The verifier does not reason about these
    products and quotients on its own; the lemmas below do it once. */
module RowMajor {

  lemma MulMono(a: int, b: int, n: int)
    requires a <= b && n >= 0
    ensures a * n <= b * n
  {
    assert b * n - a * n == (b - a) * n;
  }

  /** Splitting q * n + r by n gives back q and r when 0 <= r < n. */
  lemma DivMod(q: int, r: int, n: int)
    requires n > 0 && 0 <= r < n
    ensures (q * n + r) / n == q && (q * n + r) % n == r
  {
    var a := q * n + r;
    var q', r' := a / n, a % n;
    assert a == q' * n + r';
    if q' > q {
      assert (q + 1) * n == q * n + n;
      MulMono(q + 1, q', n);
    } else if q' < q {
      assert (q' + 1) * n == q' * n + n;
      MulMono(q' + 1, q, n);
    }
  }

  /** A cell inside a w x h matrix has its linear index inside the matrix. */
  lemma IndexBound(x: int, y: int, w: int, h: int)
    requires 0 <= x < w && 0 <= y < h
    ensures 0 <= y * w + x < w * h
  {
    MulMono(y + 1, h, w);
    assert (y + 1) * w == y * w + w;
    MulMono(0, y, w);
  }

  lemma WidthPositive(i: int, w: int, h: int)
    requires 0 <= i < w * h && h >= 0
    ensures w > 0
  {
    if w <= 0 {
      MulMono(w, 0, h);
    }
  }

  /** The coordinates of a linear index inside a w x h matrix lie inside it. */
  lemma Split(i: int, w: int, h: int)
    requires 0 <= i < w * h && h >= 0
    ensures w > 0 && h > 0
    ensures 0 <= i % w < w && 0 <= i / w < h
    ensures i == (i / w) * w + i % w
  {
    WidthPositive(i, w, h);
    if i / w >= h {
      MulMono(h, i / w, w);
    }
  }

  /** Row l of a w x h matrix occupies the indices [l * w, l * w + w). */
  lemma RowStart(l: int, w: int, h: int)
    requires 0 <= l < h && w >= 0
    ensures 0 <= l * w && l * w + w <= w * h && (l + 1) * w == l * w + w
  {
    MulMono(0, l, w);
    MulMono(l + 1, h, w);
    assert (l + 1) * w == l * w + w;
  }
}
