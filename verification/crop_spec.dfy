/**
 The reference meaning of a crop, independent of how the bytes are moved:
 output row `i` is input pixel row `top + i` restricted to the columns
 `[left, right)`, and the output rows are packed densely one after another.
 The image is dense and row-major, `width` pixels to a row and `bpp` bytes to
 a pixel, so pixel row `y` occupies the bytes from `Mul(y, Mul(width, bpp))` on.
 */
module CropSpec {

  import opened Image
  import opened Geometry

  /** The bytes of pixel row `y`, columns `[left, right)`. */
  function RowSpan(img: seq<bv8>, width: nat, bpp: nat, y: nat, left: nat, right: nat): (r: seq<bv8>)
    requires left <= right <= width
    requires Mul(y + 1, Mul(width, bpp)) <= |img|
    ensures |r| == Mul(right - left, bpp)
  {
    RowBytes(width, bpp, left, right);
    img[Mul(y, Mul(width, bpp)) + Mul(left, bpp)..Mul(y, Mul(width, bpp)) + Mul(right, bpp)]
  }

  /** Byte `c` of a row span is byte `c` past the row's first selected pixel. */
  lemma {:induction false} RowSpanIndex(img: seq<bv8>, width: nat, bpp: nat, y: nat, left: nat, right: nat, c: nat)
    requires left <= right <= width
    requires Mul(y + 1, Mul(width, bpp)) <= |img|
    requires c < Mul(right - left, bpp)
    ensures Mul(y, Mul(width, bpp)) + Mul(left, bpp) + c < |img|
    ensures RowSpan(img, width, bpp, y, left, right)[c] == img[Mul(y, Mul(width, bpp)) + Mul(left, bpp) + c]
  {
    RowBytes(width, bpp, left, right);
  }

  /** Pixel rows `top .. top + n - 1`, each cut to `[left, right)`, concatenated. */
  function CropRows(img: seq<bv8>, width: nat, bpp: nat, left: nat, right: nat, top: nat, n: nat): (r: seq<bv8>)
    requires left <= right <= width
    requires Mul(top + n, Mul(width, bpp)) <= |img|
    ensures |r| == Mul(n, Mul(right - left, bpp))
    decreases n
  {
    if n == 0 then []
    else
      CropRows(img, width, bpp, left, right, top, n - 1) + RowSpan(img, width, bpp, top + n - 1, left, right)
  }

  /** One more row appends pixel row `top + n` to the crop rows. */
  lemma {:induction false} CropRowsAppend(img: seq<bv8>, width: nat, bpp: nat, left: nat, right: nat, top: nat, n: nat)
    requires left <= right <= width
    requires Mul(top + n + 1, Mul(width, bpp)) <= |img|
    ensures CropRows(img, width, bpp, left, right, top, n + 1)
            == CropRows(img, width, bpp, left, right, top, n) + RowSpan(img, width, bpp, top + n, left, right)
  {
    MulLe(top + n, top + n + 1, Mul(width, bpp));
  }

  /**
   The crop of `rect` out of a `width x height` image: the rows
   `[top, bottom)`, each cut to the columns `[left, right)`.
   */
  function Crop(img: seq<bv8>, width: nat, height: nat, bpp: nat, rect: Rect): (r: seq<bv8>)
    requires rect.InBounds(width, height)
    requires Mul(Mul(width, height), bpp) <= |img|
    ensures |r| == Mul(Mul(rect.Width(), rect.Height()), bpp)
  {
    ImageRows(width, height, bpp, rect.bottom);
    RowsTimesRowLen(rect.Height(), rect.Width(), bpp);
    CropRows(img, width, bpp, rect.left, rect.right, rect.top, rect.Height())
  }

  /** The first `m` crop rows are a prefix of the first `n >= m`. */
  lemma {:induction false} CropRowsPrefix(img: seq<bv8>, width: nat, bpp: nat, left: nat, right: nat, top: nat,
                                          m: nat, n: nat)
    requires left <= right <= width
    requires m <= n && Mul(top + n, Mul(width, bpp)) <= |img|
    ensures Mul(top + m, Mul(width, bpp)) <= |img|
    ensures CropRows(img, width, bpp, left, right, top, m) <= CropRows(img, width, bpp, left, right, top, n)
    decreases n - m
  {
    MulLe(top + m, top + n, Mul(width, bpp));
    if m < n {
      CropRowsPrefix(img, width, bpp, left, right, top, m, n - 1);
    }
  }

  /** Byte `c` of output row `i` is byte `c` of the span of input row `top + i`. */
  lemma {:induction false} CropRowsRow(img: seq<bv8>, width: nat, bpp: nat, left: nat, right: nat, top: nat, n: nat,
                                       i: nat, c: nat)
    requires left <= right <= width
    requires Mul(top + n, Mul(width, bpp)) <= |img|
    requires i < n && c < Mul(right - left, bpp)
    ensures Mul(top + i + 1, Mul(width, bpp)) <= |img|
    ensures Mul(i, Mul(right - left, bpp)) + c < Mul(n, Mul(right - left, bpp))
    ensures CropRows(img, width, bpp, left, right, top, n)[Mul(i, Mul(right - left, bpp)) + c]
            == RowSpan(img, width, bpp, top + i, left, right)[c]
  {
    CropRowsPrefix(img, width, bpp, left, right, top, i + 1, n);
    var upto := CropRows(img, width, bpp, left, right, top, i + 1);
    var before := CropRows(img, width, bpp, left, right, top, i);
    var row := RowSpan(img, width, bpp, top + i, left, right);
    assert upto == before + row;
    PrefixIndex(CropRows(img, width, bpp, left, right, top, n), upto, before, row, c);
  }

  /** Byte `c` of output row `i` is byte `c` past the first selected pixel of input row `top + i`. */
  lemma {:induction false} CropRowsIndex(img: seq<bv8>, width: nat, bpp: nat, left: nat, right: nat, top: nat, n: nat,
                                         i: nat, c: nat)
    requires left <= right <= width
    requires Mul(top + n, Mul(width, bpp)) <= |img|
    requires i < n && c < Mul(right - left, bpp)
    ensures Mul(i, Mul(right - left, bpp)) + c < Mul(n, Mul(right - left, bpp))
    ensures Mul(top + i, Mul(width, bpp)) + Mul(left, bpp) + c < |img|
    ensures CropRows(img, width, bpp, left, right, top, n)[Mul(i, Mul(right - left, bpp)) + c]
            == img[Mul(top + i, Mul(width, bpp)) + Mul(left, bpp) + c]
  {
    CropRowsRow(img, width, bpp, left, right, top, n, i, c);
    RowSpanIndex(img, width, bpp, top + i, left, right, c);
  }

  /** Byte `c` of the last part of a prefix is byte `|before| + c` of the whole. */
  lemma PrefixIndex(whole: seq<bv8>, upto: seq<bv8>, before: seq<bv8>, last: seq<bv8>, c: nat)
    requires upto <= whole && upto == before + last && c < |last|
    ensures |before| + c < |whole| && whole[|before| + c] == last[c]
  {
  }

  /**
   `out` holds, at output pixel `(i, j)`, the bytes of input pixel
   `(top + i, left + j)`, for every pixel of the rectangle.
   */
  ghost predicate PixelsMatch(out: seq<bv8>, img: seq<bv8>, width: nat, height: nat, bpp: nat, rect: Rect)
    requires rect.InBounds(width, height)
    requires Mul(Mul(width, height), bpp) <= |img|
    requires |out| == Mul(Mul(rect.Width(), rect.Height()), bpp)
  {
    forall i: nat, j: nat, k: nat | i < rect.Height() && j < rect.Width() && k < bpp ::
      PixelBounds(width, height, bpp, rect, i, j, k);
      out[PixelByte(i, j, rect.Width(), bpp, k)] == img[PixelByte(rect.top + i, rect.left + j, width, bpp, k)]
  }

  /** Both sides of the pixel equation index inside their buffers. */
  lemma {:induction false} PixelBounds(width: nat, height: nat, bpp: nat, rect: Rect, i: nat, j: nat, k: nat)
    requires rect.InBounds(width, height)
    requires i < rect.Height() && j < rect.Width() && k < bpp
    ensures PixelByte(i, j, rect.Width(), bpp, k) < Mul(Mul(rect.Width(), rect.Height()), bpp)
    ensures PixelByte(rect.top + i, rect.left + j, width, bpp, k) < Mul(Mul(width, height), bpp)
  {
    PixelInRow(j, rect.Width(), bpp, k);
    PixelOffset(i, rect.Width(), j, bpp, k);
    RowsPrefix(i, rect.Height(), Mul(rect.Width(), bpp));
    RowsTimesRowLen(rect.Height(), rect.Width(), bpp);
    PixelInRow(rect.left + j, width, bpp, k);
    PixelOffset(rect.top + i, width, rect.left + j, bpp, k);
    RowsPrefix(rect.top + i, height, Mul(width, bpp));
    RowsTimesRowLen(height, width, bpp);
  }

  /**
   The crop equation: byte `k` of output pixel `(i, j)` is byte `k` of input
   pixel `(top + i, left + j)`.
   */
  lemma {:induction false} CropPixel(img: seq<bv8>, width: nat, height: nat, bpp: nat, rect: Rect, i: nat, j: nat, k: nat)
    requires rect.InBounds(width, height)
    requires Mul(Mul(width, height), bpp) <= |img|
    requires i < rect.Height() && j < rect.Width() && k < bpp
    ensures PixelByte(i, j, rect.Width(), bpp, k) < Mul(Mul(rect.Width(), rect.Height()), bpp)
    ensures PixelByte(rect.top + i, rect.left + j, width, bpp, k) < |img|
    ensures Crop(img, width, height, bpp, rect)[PixelByte(i, j, rect.Width(), bpp, k)]
            == img[PixelByte(rect.top + i, rect.left + j, width, bpp, k)]
  {
    PixelBounds(width, height, bpp, rect, i, j, k);
    PixelInRow(j, rect.Width(), bpp, k);
    PixelOffset(i, rect.Width(), j, bpp, k);
    ShiftedPixelOffset(rect.top + i, width, rect.left, j, bpp, k);
    CropIndex(img, width, height, bpp, rect, i, Mul(j, bpp) + k);
  }

  /** `CropRowsIndex` for the crop of a rectangle. */
  lemma {:induction false} CropIndex(img: seq<bv8>, width: nat, height: nat, bpp: nat, rect: Rect, i: nat, c: nat)
    requires rect.InBounds(width, height)
    requires Mul(Mul(width, height), bpp) <= |img|
    requires i < rect.Height() && c < Mul(rect.Width(), bpp)
    ensures Mul(i, Mul(rect.Width(), bpp)) + c < Mul(Mul(rect.Width(), rect.Height()), bpp)
    ensures Mul(rect.top + i, Mul(width, bpp)) + Mul(rect.left, bpp) + c < |img|
    ensures Crop(img, width, height, bpp, rect)[Mul(i, Mul(rect.Width(), bpp)) + c]
            == img[Mul(rect.top + i, Mul(width, bpp)) + Mul(rect.left, bpp) + c]
  {
    ImageRows(width, height, bpp, rect.bottom);
    RowsTimesRowLen(rect.Height(), rect.Width(), bpp);
    CropRowsIndex(img, width, bpp, rect.left, rect.right, rect.top, rect.Height(), i, c);
  }

  /** The reference crop satisfies the pixel equation everywhere. */
  lemma {:induction false} CropPixelsMatch(img: seq<bv8>, width: nat, height: nat, bpp: nat, rect: Rect)
    requires rect.InBounds(width, height)
    requires Mul(Mul(width, height), bpp) <= |img|
    ensures PixelsMatch(Crop(img, width, height, bpp, rect), img, width, height, bpp, rect)
  {
    forall i: nat, j: nat, k: nat | i < rect.Height() && j < rect.Width() && k < bpp {
      CropPixel(img, width, height, bpp, rect, i, j, k);
    }
  }

  /**
   The pixel equation determines the output: a buffer of the crop's size that
   satisfies it is the crop.
   */
  lemma {:induction false} CropUnique(img: seq<bv8>, width: nat, height: nat, bpp: nat, rect: Rect, out: seq<bv8>)
    requires rect.InBounds(width, height)
    requires Mul(Mul(width, height), bpp) <= |img|
    requires |out| == Mul(Mul(rect.Width(), rect.Height()), bpp)
    requires PixelsMatch(out, img, width, height, bpp, rect)
    ensures out == Crop(img, width, height, bpp, rect)
  {
    var crop := Crop(img, width, height, bpp, rect);
    CropPixelsMatch(img, width, height, bpp, rect);
    forall n | 0 <= n < |out|
      ensures out[n] == crop[n]
    {
      var i, j, k := Unflatten(n, rect.Width(), rect.Height(), bpp);
      PixelBounds(width, height, bpp, rect, i, j, k);
    }
  }

  /** Every byte offset inside a dense `w x h` buffer is byte `k` of exactly one pixel `(i, j)`. */
  lemma {:induction false} Unflatten(n: nat, w: nat, h: nat, bpp: nat) returns (i: nat, j: nat, k: nat)
    requires n < Mul(Mul(w, h), bpp)
    ensures i < h && j < w && k < bpp
    ensures PixelByte(i, j, w, bpp, k) == n
  {
    RowsTimesRowLen(h, w, bpp);
    if Mul(w, bpp) == 0 {
      MulZero(h);
      assert false;
    }
    var c;
    i, c := DivMod(n, Mul(w, bpp));
    if i >= h {
      MulLe(h, i, Mul(w, bpp));
      assert false;
    }
    if bpp == 0 {
      MulZero(w);
      assert false;
    }
    j, k := DivMod(c, bpp);
    if j >= w {
      MulLe(w, j, bpp);
      assert false;
    }
    PixelOffset(i, w, j, bpp, k);
  }

  /** The first `n` full-width rows, concatenated, are the first `n` rows of the image as stored. */
  lemma {:induction false} FullWidthRows(img: seq<bv8>, width: nat, bpp: nat, n: nat)
    requires Mul(n, Mul(width, bpp)) <= |img|
    ensures CropRows(img, width, bpp, 0, width, 0, n) == img[..Mul(n, Mul(width, bpp))]
    decreases n
  {
    if n > 0 {
      var stride := Mul(width, bpp);
      MulLe(n - 1, n, stride);
      FullWidthRows(img, width, bpp, n - 1);
      assert RowSpan(img, width, bpp, n - 1, 0, width) == img[Mul(n - 1, stride)..Mul(n, stride)];
      assert img[..Mul(n - 1, stride)] + img[Mul(n - 1, stride)..Mul(n, stride)] == img[..Mul(n, stride)];
    }
  }

  /** Cropping the full frame reproduces the image byte for byte. */
  lemma {:induction false} CropFullFrame(img: seq<bv8>, width: nat, height: nat, bpp: nat, rect: Rect)
    requires rect.IsFullFrame(width, height)
    requires Mul(Mul(width, height), bpp) <= |img|
    ensures Crop(img, width, height, bpp, rect) == img[..Mul(Mul(width, height), bpp)]
  {
    RowsTimesRowLen(height, width, bpp);
    FullWidthRows(img, width, bpp, height);
  }

  /** The rectangle `inner`, given relative to the crop of `outer`, in the coordinates of the whole image. */
  function Within(outer: Rect, inner: Rect): (r: Rect)
    requires outer.left <= outer.right && outer.top <= outer.bottom
    requires inner.InBounds(outer.Width(), outer.Height())
    ensures r.left <= r.right <= outer.right && r.top <= r.bottom <= outer.bottom
    ensures r.Width() == inner.Width() && r.Height() == inner.Height()
  {
    Rect(outer.left + inner.left, outer.top + inner.top, outer.left + inner.right, outer.top + inner.bottom)
  }

  /** One pixel of `CropOfCrop`: both crops pick it from the same input pixel. */
  lemma {:induction false} ComposedPixel(img: seq<bv8>, width: nat, height: nat, bpp: nat, outer: Rect, inner: Rect, i: nat, j: nat, k: nat)
    requires outer.InBounds(width, height)
    requires Mul(Mul(width, height), bpp) <= |img|
    requires inner.InBounds(outer.Width(), outer.Height())
    requires i < inner.Height() && j < inner.Width() && k < bpp
    ensures PixelByte(i, j, inner.Width(), bpp, k) < Mul(Mul(inner.Width(), inner.Height()), bpp)
    ensures PixelByte(outer.top + inner.top + i, outer.left + inner.left + j, width, bpp, k) < |img|
    ensures Crop(Crop(img, width, height, bpp, outer), outer.Width(), outer.Height(), bpp, inner)
              [PixelByte(i, j, inner.Width(), bpp, k)]
            == img[PixelByte(outer.top + inner.top + i, outer.left + inner.left + j, width, bpp, k)]
  {
    var first := Crop(img, width, height, bpp, outer);
    CropPixel(first, outer.Width(), outer.Height(), bpp, inner, i, j, k);
    CropPixel(img, width, height, bpp, outer, inner.top + i, inner.left + j, k);
    assert outer.top + (inner.top + i) == outer.top + inner.top + i;
    assert outer.left + (inner.left + j) == outer.left + inner.left + j;
  }

  /**
   Cropping composes: cropping `inner` out of the crop of `outer` is cropping
   `Within(outer, inner)` out of the image.
   */
  lemma {:induction false} CropOfCrop(img: seq<bv8>, width: nat, height: nat, bpp: nat, outer: Rect, inner: Rect)
    requires outer.InBounds(width, height)
    requires Mul(Mul(width, height), bpp) <= |img|
    requires inner.InBounds(outer.Width(), outer.Height())
    ensures Crop(Crop(img, width, height, bpp, outer), outer.Width(), outer.Height(), bpp, inner)
            == Crop(img, width, height, bpp, Within(outer, inner))
  {
    var first := Crop(img, width, height, bpp, outer);
    var second := Crop(first, outer.Width(), outer.Height(), bpp, inner);
    var whole := Within(outer, inner);
    forall i: nat, j: nat, k: nat | i < whole.Height() && j < whole.Width() && k < bpp
      ensures PixelByte(i, j, whole.Width(), bpp, k) < |second|
              && PixelByte(whole.top + i, whole.left + j, width, bpp, k) < |img|
              && second[PixelByte(i, j, whole.Width(), bpp, k)]
                 == img[PixelByte(whole.top + i, whole.left + j, width, bpp, k)]
    {
      ComposedPixel(img, width, height, bpp, outer, inner, i, j, k);
    }
    CropUnique(img, width, height, bpp, whole, second);
  }

  /**
   A 4 x 4 image of one-byte pixels numbered 1 to 16 row by row, cropped to
   `[1, 3) x [1, 3)`, gives the middle 2 x 2 block.
   */
  lemma {:induction false} CropExample()
    ensures Mul(Mul(4, 4), 1) == 16
            && Crop([1, 2, 3, 4, 5, 6, 7, 8, 9, 10, 11, 12, 13, 14, 15, 16], 4, 4, 1, Rect(1, 1, 3, 3))
               == [6, 7, 10, 11]
  {
    MulIsProduct(4, 4);
    MulIsProduct(16, 1);
    var img: seq<bv8> := [1, 2, 3, 4, 5, 6, 7, 8, 9, 10, 11, 12, 13, 14, 15, 16];
    assert RowSpan(img, 4, 1, 1, 1, 3) == [6, 7];
    assert RowSpan(img, 4, 1, 2, 1, 3) == [10, 11];
    assert CropRows(img, 4, 1, 1, 3, 1, 1) == [6, 7];
  }
}
