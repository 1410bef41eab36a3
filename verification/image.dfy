/**
 The image-buffer vocabulary the crop operation works on: 32-bit unsigned
 scalars, colour formats with their bit depth, the crop rectangle and the
 image descriptor (`aipl_image_t`).
 */
module Image {

  import opened Memory

  const TWO_TO_THE_32: int := 0x1_0000_0000

  /** The C `uint32_t`. */
  type u32 = x: int | 0 <= x < TWO_TO_THE_32

  /** `a - b` evaluated in `uint32_t`: wraps around modulo 2^32 when `b > a`. */
  function Sub32(a: u32, b: u32): (r: u32)
    ensures (b + r) % TWO_TO_THE_32 == a
    ensures b <= a ==> r == a - b
    ensures a < b ==> r > a
  {
    (a - b) % TWO_TO_THE_32
  }

  /** The colour formats the viewfinder declares for its images (`viewfinder/main.c:283`, `:289`). */
  datatype ColorFormat = Rgb565 | Rgb888

  /** Bits per pixel of a format (`aipl_color_format_depth`). */
  function Depth(format: ColorFormat): (bits: nat)
    ensures bits > 0 && bits % 8 == 0
  {
    match format
    case Rgb565 => 16
    case Rgb888 => 24
  }

  /** The byte stride of one pixel, `depth / 8` as the crop computes it. */
  function BytesPerPixel(format: ColorFormat): (b: nat)
    ensures b > 0 && b * 8 == Depth(format)
  {
    Depth(format) / 8
  }

  /**
   A crop rectangle in pixel coordinates. The selected region is the
   half-open `[left, right) x [top, bottom)`.
   */
  datatype Rect = Rect(left: u32, top: u32, right: u32, bottom: u32) {

    /** The bounds check of the crop, stated positively: equality is allowed on every edge. */
    predicate InBounds(width: nat, height: nat) {
      left <= right <= width && top <= bottom <= height
    }

    /** The rectangle that covers the whole `width x height` frame. */
    predicate IsFullFrame(width: nat, height: nat) {
      left == 0 && top == 0 && right == width && bottom == height
    }

    function Width(): (w: nat)
      requires left <= right
    {
      right - left
    }

    function Height(): (h: nat)
      requires top <= bottom
    {
      bottom - top
    }
  }

  /**
   A pixel-buffer descriptor (`aipl_image_t`): the buffer's address, its row
   pitch in pixels, its size in pixels and its colour format.
   */
  datatype Descriptor = Descriptor(data: Ptr, pitch: u32, width: u32, height: u32, format: ColorFormat)
}
