/**
 Consequences of the contracts of `aipl_crop` and `aipl_crop_img`: what a
 caller may rely on about the bytes at the output, the input and the rest of
 memory after a call, and about the special rectangles the code singles out.
 Every lemma here is about any outcome that meets the contract, so it holds of
 the outcome `AiplCrop.Crop` and `AiplCrop.CropImg` return.
 */
module CropProperties {

  import opened Image
  import opened Memory
  import opened Geometry
  import opened AiplCrop
  import CropSpec

  /** The contract leaves no freedom: two outcomes that meet it are equal. */
  lemma {:induction false} CropMeetsDeterministic(mem: seq<bv8>, input: Ptr, output: Ptr, width: u32, height: u32, format: ColorFormat,
                               rect: Rect, o1: Outcome, o2: Outcome)
    requires Admissible(mem, input, output, width, height, format, rect)
    requires CropMeets(mem, input, output, width, height, format, rect, o1)
    requires CropMeets(mem, input, output, width, height, format, rect, o2)
    ensures o1 == o2
  {
    if input.Addr? && output.Addr? && rect.InBounds(width, height) {
      var size := CropBytes(rect, format);
      forall a | 0 <= a < |mem|
        ensures o1.mem[a] == o2.mem[a]
      {
        if output.at <= a < output.at + size {
          assert o1.mem[a] == o1.mem[output.at..output.at + size][a - output.at];
          assert o2.mem[a] == o2.mem[output.at..output.at + size][a - output.at];
        }
      }
      assert o1.mem == o2.mem;
    }
  }

  /**
   After a successful crop, byte `k` of output pixel `(i, j)` (rows of
   `right - left` pixels from the output address) holds what byte `k` of input
   pixel `(top + i, left + j)` (rows of `width` pixels from the input address)
   held before the call.
   */
  lemma {:induction false} OutputPixel(mem: seq<bv8>, input: Ptr, output: Ptr, width: u32, height: u32, format: ColorFormat,
                    rect: Rect, o: Outcome, i: nat, j: nat, k: nat)
    requires Admissible(mem, input, output, width, height, format, rect)
    requires CropMeets(mem, input, output, width, height, format, rect, o)
    requires input.Addr? && output.Addr? && rect.InBounds(width, height)
    requires i < rect.Height() && j < rect.Width() && k < BytesPerPixel(format)
    ensures output.at + PixelByte(i, j, rect.Width(), BytesPerPixel(format), k) < |o.mem|
    ensures input.at + PixelByte(rect.top + i, rect.left + j, width, BytesPerPixel(format), k) < |mem|
    ensures o.mem[output.at + PixelByte(i, j, rect.Width(), BytesPerPixel(format), k)]
            == mem[input.at + PixelByte(rect.top + i, rect.left + j, width, BytesPerPixel(format), k)]
  {
    var bpp := BytesPerPixel(format);
    var img := mem[input.at..input.at + ImageBytes(width, height, format)];
    var window := o.mem[output.at..output.at + CropBytes(rect, format)];
    CropSpec.CropPixel(img, width, height, bpp, rect, i, j, k);
    var outAt := PixelByte(i, j, rect.Width(), bpp, k);
    var inAt := PixelByte(rect.top + i, rect.left + j, width, bpp, k);
    assert window[outAt] == img[inAt];
  }

  /**
   A crop into a distinct buffer leaves the input image as it was, whatever
   the status.
   */
  lemma {:induction false} InputPreserved(mem: seq<bv8>, input: Ptr, output: Ptr, width: u32, height: u32, format: ColorFormat,
                       rect: Rect, o: Outcome)
    requires Admissible(mem, input, output, width, height, format, rect)
    requires CropMeets(mem, input, output, width, height, format, rect, o)
    requires input.Addr? && input != output
    requires input.at + ImageBytes(width, height, format) <= |mem|
    ensures |o.mem| == |mem|
    ensures o.mem[input.at..input.at + ImageBytes(width, height, format)]
            == mem[input.at..input.at + ImageBytes(width, height, format)]
  {
    if output.Addr? && rect.InBounds(width, height) {
      var size := ImageBytes(width, height, format);
      RangeIntact(mem, o.mem, input.at, input.at + size, output.at, output.at + CropBytes(rect, format));
    }
  }

  /** A full-frame crop in place changes no byte of memory. */
  lemma {:induction false} FullFrameInPlace(mem: seq<bv8>, input: Ptr, output: Ptr, width: u32, height: u32, format: ColorFormat,
                         rect: Rect, o: Outcome)
    requires Admissible(mem, input, output, width, height, format, rect)
    requires CropMeets(mem, input, output, width, height, format, rect, o)
    requires input.Addr? && input == output && rect.IsFullFrame(width, height)
    ensures o.status == Ok && o.mem == mem
    ensures o.flushes == [CleanInvalidate(output.at, ImageBytes(width, height, format))]
  {
    var bpp := BytesPerPixel(format);
    var size := ImageBytes(width, height, format);
    var img := mem[input.at..input.at + size];
    CropSpec.CropFullFrame(img, width, height, bpp, rect);
    assert o.mem[output.at..output.at + size] == mem[output.at..output.at + size];
    forall a | 0 <= a < |mem|
      ensures o.mem[a] == mem[a]
    {
      if output.at <= a < output.at + size {
        assert o.mem[a] == o.mem[output.at..output.at + size][a - output.at];
        assert mem[a] == mem[output.at..output.at + size][a - output.at];
      }
    }
  }

  /** A full-frame crop into a distinct buffer copies the whole image there. */
  lemma {:induction false} FullFrameCopy(mem: seq<bv8>, input: Ptr, output: Ptr, width: u32, height: u32, format: ColorFormat,
                      rect: Rect, o: Outcome)
    requires Admissible(mem, input, output, width, height, format, rect)
    requires CropMeets(mem, input, output, width, height, format, rect, o)
    requires input.Addr? && output.Addr? && rect.IsFullFrame(width, height)
    ensures output.at + ImageBytes(width, height, format) <= |o.mem|
    ensures o.mem[output.at..output.at + ImageBytes(width, height, format)]
            == mem[input.at..input.at + ImageBytes(width, height, format)]
  {
    var size := ImageBytes(width, height, format);
    CropSpec.CropFullFrame(mem[input.at..input.at + size], width, height, BytesPerPixel(format), rect);
  }

  /**
   An empty rectangle (no columns or no rows) is accepted, writes nothing and
   requests a cache clean of zero bytes.
   */
  lemma {:induction false} EmptyRect(mem: seq<bv8>, input: Ptr, output: Ptr, width: u32, height: u32, format: ColorFormat,
                  rect: Rect, o: Outcome)
    requires Admissible(mem, input, output, width, height, format, rect)
    requires CropMeets(mem, input, output, width, height, format, rect, o)
    requires input.Addr? && output.Addr? && rect.InBounds(width, height)
    requires rect.left == rect.right || rect.top == rect.bottom
    ensures o.status == Ok && o.mem == mem
    ensures o.flushes == [CleanInvalidate(output.at, 0)]
  {
    assert CropBytes(rect, format) == 0;
    forall a | 0 <= a < |mem|
      ensures o.mem[a] == mem[a]
    {
    }
  }

  /**
   A rectangle with an inverted edge pair can pass the size check of
   `aipl_crop_img`, since the extent wraps around in `uint32_t`; the bounds
   check of `aipl_crop` then rejects it, so memory is never touched.
   */
  lemma {:induction false} InvertedRectRejected(mem: seq<bv8>, input: Descriptor, output: Descriptor, rect: Rect, o: Outcome)
    requires SizesMatch(output, rect) && input.format == output.format
             ==> Admissible(mem, input.data, output.data, input.width, input.height, input.format, rect)
    requires CropImgMeets(mem, input, output, rect, o)
    requires input.data.Addr? && output.data.Addr? && input.format == output.format
    requires rect.left > rect.right || rect.top > rect.bottom
    ensures o.status == (if SizesMatch(output, rect) then FrameOutOfRange else SizeMismatch)
    ensures o.mem == mem && o.flushes == []
  {
  }

  /**
   An extent that wraps around: with `left = 1` and `right = 0` the extent is
   2^32 - 1, which a descriptor of that width matches.
   */
  lemma {:induction false} WrappedExtentExample()
    ensures SizesMatch(Descriptor(Null, 0, TWO_TO_THE_32 - 1, 0, Rgb565), Rect(1, 0, 0, 0))
  {
  }

  /**
   A successful `aipl_crop_img` writes exactly the output descriptor's image:
   its pixels are those of the crop.
   */
  lemma {:induction false} CropImgOutput(mem: seq<bv8>, input: Descriptor, output: Descriptor, rect: Rect, o: Outcome)
    requires SizesMatch(output, rect) && input.format == output.format
             ==> Admissible(mem, input.data, output.data, input.width, input.height, input.format, rect)
    requires CropImgMeets(mem, input, output, rect, o)
    requires o.status == Ok
    ensures input.data.Addr? && output.data.Addr? && rect.InBounds(input.width, input.height)
    ensures rect.Width() == output.width && rect.Height() == output.height && input.format == output.format
    ensures output.data.at + ImageBytes(output.width, output.height, output.format) <= |o.mem|
    ensures input.data.at + ImageBytes(input.width, input.height, input.format) <= |mem|
    ensures o.mem[output.data.at..output.data.at + ImageBytes(output.width, output.height, output.format)]
            == CropSpec.Crop(mem[input.data.at..input.data.at + ImageBytes(input.width, input.height, input.format)],
                             input.width, input.height, BytesPerPixel(input.format), rect)
  {
  }
}
