/**
 Byte-offset arithmetic of a dense row-major image `width` pixels wide with
 `bpp` bytes per pixel, whose pixel row `y` starts at byte
 `Mul(y, Mul(width, bpp))`: where a row of the crop starts and ends, and why the
 in-place row loop never overwrites a row it has still to read.

 Products of sizes are written with `Mul`, the product of natural numbers
 defined by repeated addition (`MulIsProduct` shows it is `*`). Being
 recursive, it is unfolded only where a proof asks for it, so every proof
 about offsets works with linear arithmetic and the algebra it needs is stated
 here once, as lemmas.
 */
module Geometry {

  /** `a * b` for natural numbers: `a` times `b`. */
  function Mul(a: nat, b: nat): (p: nat) {
    if a == 0 then 0 else Mul(a - 1, b) + b
  }

  /** `Mul` is the product of natural numbers. */
  lemma {:induction false} MulIsProduct(a: nat, b: nat)
    ensures Mul(a, b) == a * b
  {
    if a > 0 {
      MulIsProduct(a - 1, b);
    }
  }

  /** Zero times anything is zero, from the right. */
  lemma {:induction false} MulZero(a: nat)
    ensures Mul(a, 0) == 0
  {
    if a > 0 {
      MulZero(a - 1);
    }
  }

  /** The row after row `a` starts `s` bytes later. */
  lemma {:induction false} NextRow(a: nat, s: nat)
    ensures Mul(a + 1, s) == Mul(a, s) + s
  {
  }

  /** One more unit in the second factor adds the first factor once. */
  lemma {:induction false} MulSuccRight(a: nat, b: nat)
    ensures Mul(a, b + 1) == Mul(a, b) + a
  {
    if a > 0 {
      MulSuccRight(a - 1, b);
    }
  }

  /** `Mul` is commutative. */
  lemma {:induction false} MulComm(a: nat, b: nat)
    ensures Mul(a, b) == Mul(b, a)
  {
    if a == 0 {
      MulZero(b);
    } else {
      MulComm(a - 1, b);
      MulSuccRight(b, a - 1);
    }
  }

  /** `Mul` distributes over a sum in its first factor. */
  lemma {:induction false} MulAddLeft(a: nat, b: nat, c: nat)
    ensures Mul(a + b, c) == Mul(a, c) + Mul(b, c)
  {
    if a > 0 {
      MulAddLeft(a - 1, b, c);
    }
  }

  /** `Mul` distributes over a sum in its second factor. */
  lemma {:induction false} MulAddRight(a: nat, b: nat, c: nat)
    ensures Mul(a, b + c) == Mul(a, b) + Mul(a, c)
  {
    if a > 0 {
      MulAddRight(a - 1, b, c);
    }
  }

  /** `Mul` is associative. */
  lemma {:induction false} MulAssoc(a: nat, b: nat, c: nat)
    ensures Mul(Mul(a, b), c) == Mul(a, Mul(b, c))
  {
    if a > 0 {
      MulAssoc(a - 1, b, c);
      MulAddLeft(Mul(a - 1, b), b, c);
    }
  }

  /** `Mul` is monotone in its first factor. */
  lemma {:induction false} MulLe(a: nat, b: nat, c: nat)
    requires a <= b
    ensures Mul(a, c) <= Mul(b, c)
  {
    MulAddLeft(a, b - a, c);
  }

  /** `Mul` is monotone in its second factor. */
  lemma {:induction false} MulLeRight(a: nat, b: nat, c: nat)
    requires b <= c
    ensures Mul(a, b) <= Mul(a, c)
  {
    MulAddRight(a, b, c - b);
  }

  /** Rows `0 .. i` of `len` bytes each end no later than `n > i` rows do. */
  lemma {:induction false} RowsPrefix(i: nat, n: nat, len: nat)
    requires i < n
    ensures Mul(i, len) + len <= Mul(n, len)
  {
    MulLe(i + 1, n, len);
  }

  /**
   Every byte offset `n` splits into `q` whole units of `len` bytes and a
   remainder `r` shorter than a unit.
   */
  lemma {:induction false} DivMod(n: nat, len: nat) returns (q: nat, r: nat)
    requires len > 0
    ensures n == Mul(q, len) + r && r < len
    decreases n
  {
    if n < len {
      q, r := 0, n;
    } else {
      q, r := DivMod(n - len, len);
      q := q + 1;
    }
  }

  /** The byte offset of byte `k` of pixel `(row, col)` in a dense image `w` pixels wide. */
  function PixelByte(row: nat, col: nat, w: nat, bpp: nat, k: nat): (offset: nat) {
    Mul(Mul(row, w) + col, bpp) + k
  }

  /** Byte `k` of pixel `(a, j)` is `Mul(j, bpp) + k` bytes into row `a`. */
  lemma {:induction false} PixelOffset(a: nat, w: nat, j: nat, bpp: nat, k: nat)
    ensures PixelByte(a, j, w, bpp, k) == Mul(a, Mul(w, bpp)) + (Mul(j, bpp) + k)
  {
    MulAddLeft(Mul(a, w), j, bpp);
    MulAssoc(a, w, bpp);
  }

  /** Byte `k` of pixel `(a, left + j)` is `Mul(j, bpp) + k` bytes past pixel `(a, left)`. */
  lemma {:induction false} ShiftedPixelOffset(a: nat, w: nat, left: nat, j: nat, bpp: nat, k: nat)
    ensures PixelByte(a, left + j, w, bpp, k) == Mul(a, Mul(w, bpp)) + Mul(left, bpp) + (Mul(j, bpp) + k)
  {
    PixelOffset(a, w, left + j, bpp, k);
    MulAddLeft(left, j, bpp);
  }

  /** Byte `k < bpp` of pixel `j < w` lies within a row of `w` pixels. */
  lemma {:induction false} PixelInRow(j: nat, w: nat, bpp: nat, k: nat)
    requires j < w && k < bpp
    ensures Mul(j, bpp) + k < Mul(w, bpp)
  {
    RowsPrefix(j, w, bpp);
  }

  /** A row cut to `[left, right)` is `Mul(right - left, bpp)` bytes long and ends within the full row. */
  lemma {:induction false} RowBytes(width: nat, bpp: nat, left: nat, right: nat)
    requires left <= right <= width
    ensures Mul(left, bpp) + Mul(right - left, bpp) == Mul(right, bpp)
    ensures Mul(right, bpp) <= Mul(width, bpp)
    ensures Mul(right - left, bpp) <= Mul(width, bpp)
  {
    MulAddLeft(left, right - left, bpp);
    MulLe(right, width, bpp);
    MulLe(right - left, width, bpp);
  }

  /** `rows` dense rows of `cols` pixels hold `Mul(Mul(cols, rows), bpp)` bytes. */
  lemma {:induction false} RowsTimesRowLen(rows: nat, cols: nat, bpp: nat)
    ensures Mul(rows, Mul(cols, bpp)) == Mul(Mul(cols, rows), bpp)
  {
    MulAssoc(rows, cols, bpp);
    MulComm(rows, cols);
  }

  /** The first `bottom <= height` rows lie within the bytes of the image. */
  lemma {:induction false} ImageRows(width: nat, height: nat, bpp: nat, bottom: nat)
    requires bottom <= height
    ensures Mul(bottom, Mul(width, bpp)) <= Mul(Mul(width, height), bpp)
  {
    MulLe(bottom, height, Mul(width, bpp));
    RowsTimesRowLen(height, width, bpp);
  }

  /**
   The in-place argument. After `i` rows the dense output has been written up to
   byte `Mul(i, rowLen)`, with `rowLen = Mul(right - left, bpp)`; source row
   `top + i`, the next one to be read, starts at
   `Mul(top + i, Mul(width, bpp)) + Mul(left, bpp)`. The first is never beyond
   the second, so the rows written so far never reach a byte that a later row
   still has to read.
   */
  lemma {:induction false} InPlaceRowsSafe(i: nat, width: nat, left: nat, right: nat, top: nat, bpp: nat)
    requires left <= right <= width
    ensures Mul(i, Mul(right - left, bpp)) <= Mul(top + i, Mul(width, bpp)) + Mul(left, bpp)
  {
    RowBytes(width, bpp, left, right);
    MulLeRight(i, Mul(right - left, bpp), Mul(width, bpp));
    MulLe(i, top + i, Mul(width, bpp));
  }

  /** `top * width * bpp`, as the source computes it, is the start of row `top`. */
  lemma {:induction false} RowStart(top: nat, width: nat, bpp: nat)
    ensures Mul(Mul(top, width), bpp) == Mul(top, Mul(width, bpp))
  {
    MulAssoc(top, width, bpp);
  }
}
