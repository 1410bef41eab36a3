/**
 The crop of `libs/alif_image-processing/source/aipl_crop.c`: `aipl_crop`, which
 copies the rectangle `[left, right) x [top, bottom)` of a dense row-major image
 into an output buffer (possibly the same buffer), and `aipl_crop_img`, which
 checks two image descriptors and delegates to it.

 Memory is one flat byte sequence and a buffer is an address into it, so an
 in-place crop is a call whose two pointers are equal.
 */
module AiplCrop {

  import opened Image
  import opened Memory
  import opened Geometry
  import CropSpec

  /** The status codes the crop returns (`aipl_error_t`). */
  datatype Status = Ok | Error | FrameOutOfRange | SizeMismatch | FormatMismatch

  /** What a call leaves behind: its status, the memory afterwards and the cache maintenance it requested. */
  datatype Outcome = Outcome(status: Status, mem: seq<bv8>, flushes: seq<Flush>)

  /** Bytes of a dense `width x height` image. */
  function ImageBytes(width: nat, height: nat, format: ColorFormat): (n: nat) {
    Mul(Mul(width, height), BytesPerPixel(format))
  }

  /** Bytes of the densely packed crop of `rect`. */
  function CropBytes(rect: Rect, format: ColorFormat): (n: nat)
    requires rect.left <= rect.right && rect.top <= rect.bottom
  {
    Mul(Mul(rect.Width(), rect.Height()), BytesPerPixel(format))
  }

  /**
   What the crop relies on once both pointers are non-NULL and the rectangle is
   in bounds: the image size fits in 32 bits (the size products are computed in
   `uint32_t`), the input image and the output rectangle lie in memory, and the
   two buffers are either the same buffer or do not overlap.
   */
  predicate Admissible(mem: seq<bv8>, input: Ptr, output: Ptr, width: u32, height: u32, format: ColorFormat, rect: Rect) {
    input.Addr? && output.Addr? && rect.InBounds(width, height) ==>
      && ImageBytes(width, height, format) < TWO_TO_THE_32
      && input.at + ImageBytes(width, height, format) <= |mem|
      && output.at + CropBytes(rect, format) <= |mem|
      && (input == output || Disjoint(input.at, ImageBytes(width, height, format), output.at, CropBytes(rect, format)))
  }

  /**
   The contract of `aipl_crop`. A NULL pointer gives `Error`, then a rectangle
   outside `[0, width] x [0, height]` or inverted gives `FrameOutOfRange`; both
   leave memory alone and request no cache maintenance. Otherwise the result is
   `Ok`, the `CropBytes` bytes at the output are the crop of the image as it was
   BEFORE the call (so an in-place crop reads no byte it has already
   overwritten), no other byte of memory changes, and exactly one cache
   clean-and-invalidate covers the output bytes.
   */
  ghost predicate CropMeets(mem: seq<bv8>, input: Ptr, output: Ptr, width: u32, height: u32, format: ColorFormat,
                            rect: Rect, o: Outcome)
    requires Admissible(mem, input, output, width, height, format, rect)
  {
    if input.Null? || output.Null? then
      o == Outcome(Error, mem, [])
    else if !rect.InBounds(width, height) then
      o == Outcome(FrameOutOfRange, mem, [])
    else
      var size := CropBytes(rect, format);
      var img := mem[input.at..input.at + ImageBytes(width, height, format)];
      && o.status == Ok
      && |o.mem| == |mem|
      && o.mem[output.at..output.at + size] == CropSpec.Crop(img, width, height, BytesPerPixel(format), rect)
      && (forall a | 0 <= a < |mem| && !(output.at <= a < output.at + size) :: o.mem[a] == mem[a])
      && o.flushes == [CleanInvalidate(output.at, size)]
  }

  /**
   `aipl_crop`. The `pitch` argument is accepted and never read: source rows
   are `width` pixels apart.
   */
  method Crop(mem: seq<bv8>, input: Ptr, output: Ptr, pitch: u32, width: u32, height: u32,
              format: ColorFormat, rect: Rect) returns (o: Outcome)
    requires Admissible(mem, input, output, width, height, format, rect)
    ensures CropMeets(mem, input, output, width, height, format, rect, o)
    ensures o.status == Ok <==> input.Addr? && output.Addr? && rect.InBounds(width, height)
    ensures o.status != Ok ==> o.mem == mem && o.flushes == []
  {
    if input.Null? || output.Null? {
      return Outcome(Error, mem, []);
    }
    if rect.left > rect.right || rect.right > width || rect.top > rect.bottom || rect.bottom > height {
      return Outcome(FrameOutOfRange, mem, []);
    }
    var m;
    if rect.left == 0 && rect.top == 0 && rect.right == width && rect.bottom == height {
      m := CopyFrame(mem, input, output, width, height, format, rect);
    } else {
      m := MoveRows(mem, input, output, width, height, format, rect);
    }
    var bits := Depth(format);
    var bytes := bits / 8;
    var newWidth := rect.right - rect.left;
    var newHeight := rect.bottom - rect.top;
    var size := Mul(Mul(newWidth, newHeight), bytes);
    OkMeets(mem, m, input, output, width, height, format, rect);
    return Outcome(Ok, m, [CleanInvalidate(output.at, size)]);
  }

  /**
   The full-frame case of the crop: the whole image is copied with one
   `memcpy`, or left where it is when the crop is in place. The `size` it
   copies is the crop's byte count, so the output again holds the crop of the
   image and nothing else changes.
   */
  method CopyFrame(mem: seq<bv8>, input: Ptr, output: Ptr, width: u32, height: u32, format: ColorFormat, rect: Rect)
    returns (m: seq<bv8>)
    requires Admissible(mem, input, output, width, height, format, rect)
    requires input.Addr? && output.Addr? && rect.IsFullFrame(width, height)
    ensures |m| == |mem|
    ensures m[output.at..output.at + CropBytes(rect, format)]
            == CropSpec.Crop(mem[input.at..input.at + ImageBytes(width, height, format)], width, height, BytesPerPixel(format), rect)
    ensures forall a | 0 <= a < |mem| && !(output.at <= a < output.at + CropBytes(rect, format)) :: m[a] == mem[a]
  {
    var bits := Depth(format);
    var bytes := bits / 8;
    var size := Mul(Mul(width, height), bytes);
    m := mem;
    if input != output {
      // memcpy: the ranges do not overlap, so it moves bytes as memmove does
      m := Memmove(mem, output.at, input.at, size);
    }
    CropSpec.CropFullFrame(mem[input.at..input.at + size], width, height, bytes, rect);
  }

  /**
   The size check of `aipl_crop_img`: the rectangle's extent, computed in
   `uint32_t` (so an inverted edge pair wraps around), equals the output
   descriptor's size.
   */
  predicate SizesMatch(output: Descriptor, rect: Rect) {
    Sub32(rect.right, rect.left) == output.width && Sub32(rect.bottom, rect.top) == output.height
  }

  /**
   The contract of `aipl_crop_img`. A size mismatch gives `SizeMismatch`, then
   different formats give `FormatMismatch`; both leave memory alone and request
   no cache maintenance. Otherwise it is the crop of the input descriptor's
   image into the output descriptor's buffer.
   */
  ghost predicate CropImgMeets(mem: seq<bv8>, input: Descriptor, output: Descriptor, rect: Rect, o: Outcome)
    requires SizesMatch(output, rect) && input.format == output.format
             ==> Admissible(mem, input.data, output.data, input.width, input.height, input.format, rect)
  {
    if !SizesMatch(output, rect) then
      o == Outcome(SizeMismatch, mem, [])
    else if output.format != input.format then
      o == Outcome(FormatMismatch, mem, [])
    else
      CropMeets(mem, input.data, output.data, input.width, input.height, input.format, rect, o)
  }

  /** `aipl_crop_img`. */
  method CropImg(mem: seq<bv8>, input: Descriptor, output: Descriptor, rect: Rect) returns (o: Outcome)
    requires SizesMatch(output, rect) && input.format == output.format
             ==> Admissible(mem, input.data, output.data, input.width, input.height, input.format, rect)
    ensures CropImgMeets(mem, input, output, rect, o)
    ensures o.status == SizeMismatch <==> !SizesMatch(output, rect)
    ensures o.status == FormatMismatch <==> SizesMatch(output, rect) && input.format != output.format
    ensures o.status == Ok ==> rect.InBounds(input.width, input.height)
                               && CropBytes(rect, input.format) == ImageBytes(output.width, output.height, output.format)
  {
    var newWidth := Sub32(rect.right, rect.left);
    var newHeight := Sub32(rect.bottom, rect.top);
    if newWidth != output.width || newHeight != output.height {
      return Outcome(SizeMismatch, mem, []);
    }
    if output.format != input.format {
      return Outcome(FormatMismatch, mem, []);
    }
    o := Crop(mem, input.data, output.data, input.pitch, input.width, input.height, input.format, rect);
  }

  /**
   The general case of the crop. Afterwards the output holds the crop of the
   image as it was before the loop, and nothing else has changed.
   */
  method MoveRows(mem: seq<bv8>, input: Ptr, output: Ptr, width: u32, height: u32, format: ColorFormat, rect: Rect)
    returns (m: seq<bv8>)
    requires Admissible(mem, input, output, width, height, format, rect)
    requires input.Addr? && output.Addr? && rect.InBounds(width, height)
    ensures |m| == |mem|
    ensures m[output.at..output.at + CropBytes(rect, format)]
            == CropSpec.Crop(mem[input.at..input.at + ImageBytes(width, height, format)], width, height, BytesPerPixel(format), rect)
    ensures forall a | 0 <= a < |mem| && !(output.at <= a < output.at + CropBytes(rect, format)) :: m[a] == mem[a]
  {
    ghost var img := mem[input.at..input.at + ImageBytes(width, height, format)];
    m := RowLoop(mem, input.at, output.at, img, width, height, BytesPerPixel(format), rect, CropBytes(rect, format));
    AllRowsDone(mem, m, input, output, width, height, format, rect);
  }

  /**
   The row loop: `ip` starts at source row `top` and `op` at the output; row
   by row, `memmove` the `right - left` selected pixels of source row `top + i`
   (rows `width` pixels apart) to output row `i` (rows `right - left` pixels
   apart). Afterwards all `bottom - top` rows are done.
   */
  method RowLoop(mem: seq<bv8>, inAt: nat, out: nat, ghost img: seq<bv8>, width: nat, height: nat, bpp: nat,
                 rect: Rect, cropLen: nat)
    returns (m: seq<bv8>)
    requires rect.InBounds(width, height)
    requires inAt + |img| <= |mem| && img == mem[inAt..inAt + |img|] && |img| == Mul(Mul(width, height), bpp)
    requires cropLen == Mul(Mul(rect.Width(), rect.Height()), bpp) && out + cropLen <= |mem|
    requires inAt == out || Disjoint(inAt, |img|, out, cropLen)
    ensures RowsDone(mem, m, out, img, width, bpp, rect, rect.Height())
  {
    var newWidth := rect.right - rect.left;
    var newHeight := rect.bottom - rect.top;
    var stride := Mul(width, bpp);
    var rowLen := Mul(newWidth, bpp);
    RowStart(rect.top, width, bpp);
    ImageRows(width, height, bpp, rect.top);
    var ip: nat := inAt + Mul(Mul(rect.top, width), bpp);
    var op: nat := out;
    m := mem;
    for i := 0 to newHeight
      invariant ip == inAt + Mul(rect.top + i, stride)
      invariant op == out + Mul(i, rowLen)
      invariant RowsDone(mem, m, out, img, width, bpp, rect, i)
    {
      m := MoveRow(mem, m, inAt, out, img, width, height, bpp, rect, i, stride, rowLen, cropLen, ip, op);
      NextRow(rect.top + i, stride);
      NextRow(i, rowLen);
      ip := ip + stride;
      op := op + rowLen;
    }
  }

  /**
   The invariant of the row loop after `i` rows, with the output at `out` and
   `img` the input image as it was before the loop: the first `i` output rows
   hold the first `i` crop rows of `img`, and no byte outside them has changed.
   */
  ghost predicate RowsDone(mem: seq<bv8>, m: seq<bv8>, out: nat, img: seq<bv8>, width: nat, bpp: nat, rect: Rect, i: nat)
    requires rect.left <= rect.right <= width
  {
    var written := out + Mul(i, Mul(rect.Width(), bpp));
    && rect.top <= rect.bottom
    && i <= rect.Height()
    && Mul(rect.top + i, Mul(width, bpp)) <= |img|
    && written <= |mem|
    && |m| == |mem|
    && m[out..written] == CropSpec.CropRows(img, width, bpp, rect.left, rect.right, rect.top, i)
    && (forall a | 0 <= a < |mem| && !(out <= a < written) :: m[a] == mem[a])
  }

  /** After the row loop every row is done: the output holds the whole crop and nothing else changed. */
  lemma {:induction false} AllRowsDone(mem: seq<bv8>, m: seq<bv8>, input: Ptr, output: Ptr, width: u32, height: u32, format: ColorFormat,
                    rect: Rect)
    requires Admissible(mem, input, output, width, height, format, rect)
    requires input.Addr? && output.Addr? && rect.InBounds(width, height)
    requires RowsDone(mem, m, output.at, mem[input.at..input.at + ImageBytes(width, height, format)],
                      width, BytesPerPixel(format), rect, rect.Height())
    ensures |m| == |mem|
    ensures m[output.at..output.at + CropBytes(rect, format)]
            == CropSpec.Crop(mem[input.at..input.at + ImageBytes(width, height, format)], width, height, BytesPerPixel(format), rect)
    ensures forall a | 0 <= a < |mem| && !(output.at <= a < output.at + CropBytes(rect, format)) :: m[a] == mem[a]
  {
    RowsTimesRowLen(rect.Height(), rect.Width(), BytesPerPixel(format));
  }

  /**
   While the row loop runs, source row `top + i` of the image at `inAt` is still
   intact: the first `i` output rows, the only bytes written so far, do not reach
   it. With distinct buffers that is disjointness; in place it is
   `InPlaceRowsSafe`.
   */
  lemma {:induction false} SourceRowIntact(mem: seq<bv8>, m: seq<bv8>, inAt: nat, out: nat, img: seq<bv8>, width: nat, height: nat,
                        bpp: nat, rect: Rect, i: nat, stride: nat, rowLen: nat, cropLen: nat)
    returns (src: nat)
    requires rect.InBounds(width, height) && i < rect.Height()
    requires stride == Mul(width, bpp) && rowLen == Mul(rect.Width(), bpp)
    requires inAt + |img| <= |mem| && img == mem[inAt..inAt + |img|] && |img| == Mul(Mul(width, height), bpp)
    requires cropLen == Mul(Mul(rect.Width(), rect.Height()), bpp) && out + cropLen <= |mem|
    requires inAt == out || Disjoint(inAt, |img|, out, cropLen)
    requires |m| == |mem|
    requires forall a | 0 <= a < |mem| && !(out <= a < out + Mul(i, rowLen)) :: m[a] == mem[a]
    ensures src == inAt + Mul(rect.top + i, stride) + Mul(rect.left, bpp)
    ensures src + rowLen <= |mem| == |m|
    ensures out + Mul(i, rowLen) + rowLen <= |mem|
    ensures Mul(rect.top + i + 1, Mul(width, bpp)) <= |img|
    ensures m[src..src + rowLen] == CropSpec.RowSpan(img, width, bpp, rect.top + i, rect.left, rect.right)
  {
    var lo := RowPlace(inAt, out, |img|, width, height, bpp, rect, i, stride, rowLen, cropLen);
    src := inAt + lo;
    var hi := lo + rowLen;
    BufferIntact(mem, m, inAt, |img|, lo, hi, out, out + Mul(i, rowLen));
    assert CropSpec.RowSpan(img, width, bpp, rect.top + i, rect.left, rect.right) == img[lo..hi];
  }

  /**
   Where source row `top + i` lies: `lo` bytes into the image, inside it, and
   clear of the first `i` output rows, either because the buffers are disjoint
   or, in place, because of `InPlaceRowsSafe`.
   */
  lemma {:induction false} RowPlace(inAt: nat, out: nat, imgLen: nat, width: nat, height: nat, bpp: nat, rect: Rect, i: nat,
                 stride: nat, rowLen: nat, cropLen: nat)
    returns (lo: nat)
    requires rect.InBounds(width, height) && i < rect.Height()
    requires stride == Mul(width, bpp) && rowLen == Mul(rect.Width(), bpp)
    requires imgLen == Mul(Mul(width, height), bpp) && cropLen == Mul(Mul(rect.Width(), rect.Height()), bpp)
    requires inAt == out || Disjoint(inAt, imgLen, out, cropLen)
    ensures lo == Mul(rect.top + i, stride) + Mul(rect.left, bpp)
    ensures lo + rowLen == Mul(rect.top + i, Mul(width, bpp)) + Mul(rect.right, bpp)
    ensures lo + rowLen <= imgLen
    ensures Mul(rect.top + i + 1, Mul(width, bpp)) <= imgLen
    ensures out + Mul(i, rowLen) + rowLen <= out + cropLen
    ensures inAt + lo + rowLen <= out || out + Mul(i, rowLen) <= inAt + lo
  {
    var y := rect.top + i;
    lo := Mul(y, stride) + Mul(rect.left, bpp);
    RowGeometry(width, height, bpp, rect, i);
    RowsPrefix(y, height, stride);
    NextRow(y, stride);
    ImageRows(width, height, bpp, height);
    RowBytes(width, bpp, rect.left, rect.right);
  }

  /**
   One pass of the row loop, with `ip` at source row `top + i` and `op` at
   output row `i`: `memmove` the row's selected bytes from `ip + left * bpp` to
   `op`, which makes `i + 1` rows done.
   */
  method MoveRow(mem: seq<bv8>, m: seq<bv8>, inAt: nat, out: nat, ghost img: seq<bv8>, width: nat, height: nat,
                 bpp: nat, rect: Rect, i: nat, stride: nat, rowLen: nat, cropLen: nat, ip: nat, op: nat)
    returns (next: seq<bv8>)
    requires rect.InBounds(width, height) && i < rect.Height()
    requires stride == Mul(width, bpp) && rowLen == Mul(rect.Width(), bpp)
    requires inAt + |img| <= |mem| && img == mem[inAt..inAt + |img|] && |img| == Mul(Mul(width, height), bpp)
    requires cropLen == Mul(Mul(rect.Width(), rect.Height()), bpp) && out + cropLen <= |mem|
    requires inAt == out || Disjoint(inAt, |img|, out, cropLen)
    requires RowsDone(mem, m, out, img, width, bpp, rect, i)
    requires ip == inAt + Mul(rect.top + i, stride) && op == out + Mul(i, rowLen)
    ensures RowsDone(mem, next, out, img, width, bpp, rect, i + 1)
  {
    var ipRow := ip + Mul(rect.left, bpp);
    ghost var src := SourceRowIntact(mem, m, inAt, out, img, width, height, bpp, rect, i, stride, rowLen, cropLen);
    assert ipRow == src;
    RowAppended(mem, m, out, img, width, bpp, rect, i, ipRow, op, rowLen);
    next := Memmove(m, op, ipRow, rowLen);
  }

  /**
   One iteration of the row loop keeps its invariant: moving the intact source
   row `top + i` to the end of the `i` rows done makes `i + 1` rows done.
   */
  lemma {:induction false} RowAppended(mem: seq<bv8>, m: seq<bv8>, out: nat, img: seq<bv8>, width: nat, bpp: nat, rect: Rect, i: nat,
                    src: nat, dst: nat, rowLen: nat)
    requires rect.left <= rect.right <= width && rect.top <= rect.bottom
    requires i < rect.Height()
    requires rowLen == Mul(rect.Width(), bpp) && dst == out + Mul(i, rowLen)
    requires Mul(rect.top + i + 1, Mul(width, bpp)) <= |img|
    requires |m| == |mem| && dst + rowLen <= |mem| && src + rowLen <= |mem|
    requires m[out..dst] == CropSpec.CropRows(img, width, bpp, rect.left, rect.right, rect.top, i)
    requires forall a | 0 <= a < |mem| && !(out <= a < dst) :: m[a] == mem[a]
    requires m[src..src + rowLen] == CropSpec.RowSpan(img, width, bpp, rect.top + i, rect.left, rect.right)
    ensures RowsDone(mem, Memmove(m, dst, src, rowLen), out, img, width, bpp, rect, i + 1)
  {
    var next := Memmove(m, dst, src, rowLen);
    NextRow(i, rowLen);
    MemmoveAppends(m, out, dst, src, rowLen);
    CropSpec.CropRowsAppend(img, width, bpp, rect.left, rect.right, rect.top, i);
    assert next[out..dst + rowLen] == CropSpec.CropRows(img, width, bpp, rect.left, rect.right, rect.top, i + 1);
    MemmoveFrame(mem, m, out, dst, src, rowLen);
  }

  /**
   Where row `i` of the row loop reads and writes: its source bytes lie in the
   input image, its destination bytes lie in the output rectangle's bytes, and
   the output rows written before it end no later than its source row starts.
   */
  lemma {:induction false} RowGeometry(width: nat, height: nat, bpp: nat, rect: Rect, i: nat)
    requires rect.InBounds(width, height)
    requires i < rect.Height()
    ensures Mul(rect.top + i, Mul(width, bpp)) + Mul(rect.left, bpp) + Mul(rect.Width(), bpp) <= Mul(Mul(width, height), bpp)
    ensures Mul(i, Mul(rect.Width(), bpp)) + Mul(rect.Width(), bpp) <= Mul(Mul(rect.Width(), rect.Height()), bpp)
    ensures Mul(i, Mul(rect.Width(), bpp)) <= Mul(rect.top + i, Mul(width, bpp)) + Mul(rect.left, bpp)
  {
    RowBytes(width, bpp, rect.left, rect.right);
    RowsPrefix(rect.top + i, height, Mul(width, bpp));
    ImageRows(width, height, bpp, height);
    RowsPrefix(i, rect.Height(), Mul(rect.Width(), bpp));
    RowsTimesRowLen(rect.Height(), rect.Width(), bpp);
    InPlaceRowsSafe(i, width, rect.left, rect.right, rect.top, bpp);
  }

  /** A successful crop's outcome meets the contract once its memory does. */
  lemma {:induction false} OkMeets(mem: seq<bv8>, m: seq<bv8>, input: Ptr, output: Ptr, width: u32, height: u32, format: ColorFormat, rect: Rect)
    requires Admissible(mem, input, output, width, height, format, rect)
    requires input.Addr? && output.Addr? && rect.InBounds(width, height)
    requires |m| == |mem|
    requires m[output.at..output.at + CropBytes(rect, format)]
             == CropSpec.Crop(mem[input.at..input.at + ImageBytes(width, height, format)], width, height, BytesPerPixel(format), rect)
    requires forall a | 0 <= a < |mem| && !(output.at <= a < output.at + CropBytes(rect, format)) :: m[a] == mem[a]
    ensures CropMeets(mem, input, output, width, height, format, rect,
                      Outcome(Ok, m, [CleanInvalidate(output.at, Mul(Mul(rect.right - rect.left, rect.bottom - rect.top), BytesPerPixel(format)))]))
  {
  }
}
