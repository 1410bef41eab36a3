# Crop of the Alif image-processing library, modelled in Dafny

This project models the crop operation of the Alif image-processing library
(`libs/alif_image-processing/source/aipl_crop.c`), which cuts a rectangle out of
a raw frame buffer. The library provides it; the viewfinder application in the
same repository does not call it (its frames go through `resize_image`):

- `aipl_crop(input, output, pitch, width, height, format, left, top, right, bottom)`
  checks both pointers and then the rectangle `[left, right) x [top, bottom)`
  against the `width x height` frame. It copies the selected pixels into the
  output buffer, packed densely and possibly in place. It then cleans and
  invalidates the data cache over the bytes it wrote.
- `aipl_crop_img(input, output, left, top, right, bottom)` does the same for two
  image descriptors (`aipl_image_t`). First it checks that the rectangle's
  extent matches the output descriptor's size and that the two formats agree.

How the model represents the C program:

- Memory is one flat byte sequence (`seq<bv8>`). A buffer is an address into it
  (`Memory.Ptr`), so an in-place crop is a call whose two pointers are equal.
- `memmove` and `memcpy` are the pure function `Memory.Memmove`. The cache
  clean-and-invalidate is recorded as a `Memory.Flush` in the call's
  `AiplCrop.Outcome`, next to the status and the memory after the call.
- `uint32_t` is `Image.u32`. The extent subtraction of `aipl_crop_img` wraps
  around modulo 2^32 (`Image.Sub32`).
- Byte counts and offsets are products of natural numbers, written with
  `Geometry.Mul` (repeated addition; `Geometry.MulIsProduct` shows it is `*`).
  The algebra the offsets need is stated once, as lemmas in `Geometry`.
- The loop of `aipl_crop` is `AiplCrop.RowLoop`; its body is `AiplCrop.MoveRow`.

The behaviour is stated against an independent reference, `CropSpec.Crop`. It
is the rows `top .. bottom - 1` of the image, each cut to the columns
`[left, right)`, concatenated. Its defining property is the pixel equation
`CropSpec.CropPixel`: byte `k` of output pixel `(i, j)` is byte `k` of input
pixel `(top + i, left + j)`. `CropSpec.CropUnique` shows that this equation
determines the crop.

`AiplCrop.CropMeets` is the contract of `aipl_crop`. It gives the error order
(`AIPL_ERROR`, then `AIPL_FRAME_OUT_OF_RANGE`), says the output holds the
reference crop of the image as it was before the call, says no other byte
changes, and requires exactly one cache flush. The row loop of the code is
proved to meet that contract, including when it runs in place.
`AiplCrop.CropImgMeets` is the contract of `aipl_crop_img`.

Modules:

| file | module | contents |
|---|---|---|
| `memory.dfy` | `Memory` | flat memory, pointers, `memmove`, cache flushes |
| `image.dfy` | `Image` | `uint32_t`, colour formats and depth, rectangle, descriptor |
| `geometry.dfy` | `Geometry` | byte-offset arithmetic of dense row-major images |
| `crop_spec.dfy` | `CropSpec` | the reference crop and its laws |
| `aipl_crop.dfy` | `AiplCrop` | `aipl_crop`, `aipl_crop_img`, their contracts, the row-loop proof |
| `crop_properties.dfy` | `CropProperties` | consequences of the contracts for callers |

## Model

| member | source | states |
|---|---|---|
| Image.Sub32 | libs/alif_image-processing/source/aipl_crop.c:99-100 | the `uint32_t` difference `right - left` is the value that, added to `left` modulo 2^32, gives `right`; it is the plain difference when `left <= right`, and exceeds `right` when the edges are inverted |
| Image.Depth | libs/alif_image-processing/source/aipl_crop.c:57 | bits per pixel are a positive multiple of 8: 16 for RGB565, 24 for RGB888 |
| Image.BytesPerPixel | libs/alif_image-processing/source/aipl_crop.c:57 | a format's bytes per pixel are positive and are its bit depth divided by eight (whole bytes) |
| Memory.Memmove | libs/alif_image-processing/source/aipl_crop.c:81 | after `memmove(dst, src, n)` the `n` bytes at `dst` are the `n` bytes that were at `src`, even when the ranges overlap, and every other byte is unchanged |
| CropSpec.RowSpan | libs/alif_image-processing/source/aipl_crop.c:80-81 | the bytes one row moves are `(right - left) * bpp` long |
| CropSpec.CropRows | libs/alif_image-processing/source/aipl_crop.c:77-86 | `n` moved rows fill `n` dense output rows of `(right - left) * bpp` bytes |
| CropSpec.Crop | libs/alif_image-processing/source/aipl_crop.c:88 | the crop is `new_width * new_hight * bpp` bytes long, the size the code flushes |
| CropSpec.CropRowsPrefix | libs/alif_image-processing/source/aipl_crop.c:77-86 | moving more rows only appends: the output of the first `m` rows is a prefix of the output of the first `n >= m` rows |
| CropSpec.CropRowsRow | libs/alif_image-processing/source/aipl_crop.c:77-86 | byte `c` of output row `i` is byte `c` of the span that row `top + i` contributes, at offset `i * new_width * bpp + c` |
| CropSpec.CropRowsIndex | libs/alif_image-processing/source/aipl_crop.c:71-86 | byte `c` of output row `i` is byte `c` past the first selected pixel of input row `top + i`, at `(top + i) * width * bpp + left * bpp + c` |
| CropSpec.CropIndex | libs/alif_image-processing/source/aipl_crop.c:71-86 | byte `c` of output row `i` of the whole crop is input byte `(top + i) * width * bpp + left * bpp + c`, both inside their buffers |
| CropSpec.CropPixel | libs/alif_image-processing/source/aipl_crop.c:71-86 | byte `k` of output pixel `(i, j)` is byte `k` of input pixel `(top + i, left + j)`, and both indices are inside their buffers |
| CropSpec.CropPixelsMatch | libs/alif_image-processing/source/aipl_crop.c:71-86 | the reference crop satisfies the pixel equation at every pixel of the rectangle |
| CropSpec.CropUnique | libs/alif_image-processing/source/aipl_crop.c:71-86 | any buffer of the crop's size that satisfies the pixel equation is the reference crop |
| CropSpec.FullWidthRows | libs/alif_image-processing/source/aipl_crop.c:60-65 | the first `n` full-width rows, moved row by row, are the first `n` rows of the image exactly as stored |
| CropSpec.CropFullFrame | libs/alif_image-processing/source/aipl_crop.c:60-65 | the full-frame crop is the image byte for byte, so the single `memcpy` (or no copy in place) of the shortcut agrees with the general row loop |
| CropSpec.Within | libs/alif_image-processing/source/aipl_crop.c:71-86 | a law of the reference crop, used by `CropOfCrop`: a rectangle nested inside a crop, moved to image coordinates, lies inside the outer rectangle and keeps its width and height |
| CropSpec.ComposedPixel | libs/alif_image-processing/source/aipl_crop.c:71-86 | cropping a crop picks each output pixel from the input pixel offset by both rectangles' corners |
| CropSpec.CropOfCrop | libs/alif_image-processing/source/aipl_crop.c:71-86 | cropping `inner` out of the crop of `outer` equals cropping the composed rectangle out of the image |
| CropSpec.CropExample | libs/alif_image-processing/source/aipl_crop.c:71-86 | the 4 x 4 one-byte image numbered 1..16, cropped to `[1, 3) x [1, 3)`, gives `6, 7, 10, 11` |
| Geometry.MulIsProduct | libs/alif_image-processing/source/aipl_crop.c:62 | the product `Mul` the model writes every size with is the multiplication the code performs |
| Geometry.RowStart | libs/alif_image-processing/source/aipl_crop.c:71 | `top * width * bpp`, associated as the code does, is the byte where row `top` starts in rows of `width * bpp` bytes |
| Geometry.InPlaceRowsSafe | libs/alif_image-processing/source/aipl_crop.c:71-85 | after `i` rows the dense output has been written no further than where source row `top + i` starts, so an in-place crop never overwrites a row it still has to read |
| AiplCrop.Crop | libs/alif_image-processing/source/aipl_crop.c:42-92 | `aipl_crop` meets `CropMeets`: a NULL pointer gives `AIPL_ERROR`, then an out-of-range or inverted rectangle gives `AIPL_FRAME_OUT_OF_RANGE`, and both leave memory alone and flush nothing; otherwise `AIPL_OK`, the output holds the crop of the image as it was before the call, no other byte changes, and one flush covers the output bytes; `AIPL_OK` exactly when both pointers are non-NULL and the rectangle is in bounds |
| AiplCrop.CopyFrame | libs/alif_image-processing/source/aipl_crop.c:60-65 | the full-frame shortcut, one `memcpy` of `width * height * bpp` bytes or none in place, leaves the reference crop at the output and changes no other byte |
| AiplCrop.MoveRows | libs/alif_image-processing/source/aipl_crop.c:70-86 | the general case leaves the reference crop of the original image at the output, in place or between distinct buffers, and changes no byte outside the output rectangle's bytes |
| AiplCrop.RowLoop | libs/alif_image-processing/source/aipl_crop.c:71-86 | starting with `ip_fb` at source row `top` and `op_fb` at the output, the loop ends with all `new_hight` rows done: the first output rows hold the crop rows of the image as it was before the loop, and no other byte changed |
| AiplCrop.MoveRow | libs/alif_image-processing/source/aipl_crop.c:79-85 | one pass of the loop, reading from `ip_fb + left * bpp` and writing at `op_fb`, turns `i` finished rows into `i + 1` and keeps every byte outside them |
| AiplCrop.SourceRowIntact | libs/alif_image-processing/source/aipl_crop.c:80-81 | when row `i` is read, its source bytes still hold the original image row `top + i`, cut to `[left, right)` |
| AiplCrop.RowAppended | libs/alif_image-processing/source/aipl_crop.c:81 | moving the intact source row to output row `i` turns `i` finished rows into `i + 1` and touches nothing else |
| AiplCrop.AllRowsDone | libs/alif_image-processing/source/aipl_crop.c:77-88 | after `new_hight` rows the output's `new_width * new_hight * bpp` bytes are the whole crop and nothing else changed |
| AiplCrop.RowGeometry | libs/alif_image-processing/source/aipl_crop.c:80-85 | row `i` reads inside the input image and writes inside the output rectangle's bytes, and the rows written before it end before its source row starts |
| AiplCrop.RowPlace | libs/alif_image-processing/source/aipl_crop.c:80-85 | source row `top + i` starts `(top + i) * width * bpp + left * bpp` bytes into the image, ends inside it, and lies clear of the output rows written before it, in place or between distinct buffers |
| AiplCrop.OkMeets | libs/alif_image-processing/source/aipl_crop.c:88-91 | a successful crop whose memory is right meets the contract once it flushes the `new_width * new_hight * bpp` output bytes |
| AiplCrop.CropImg | libs/alif_image-processing/source/aipl_crop.c:94-117 | `aipl_crop_img` gives `AIPL_SIZE_MISMATCH` exactly when the wrapped extent differs from the output's size, then `AIPL_FORMAT_MISMATCH` exactly when the formats differ, and otherwise the result of `aipl_crop` on the input descriptor's fields; on success the crop is exactly the output descriptor's image size |
| CropProperties.CropMeetsDeterministic | libs/alif_image-processing/source/aipl_crop.c:42-92 | the contract of `aipl_crop` determines status, memory and flushes completely |
| CropProperties.OutputPixel | libs/alif_image-processing/source/aipl_crop.c:71-86 | after a successful call, output byte `output + ((i * new_width + j) * bpp + k)` holds what input byte `input + (((top + i) * width + left + j) * bpp + k)` held before |
| CropProperties.InputPreserved | libs/alif_image-processing/source/aipl_crop.c:63-64 | a crop between distinct buffers leaves the input image unchanged, whatever the status |
| CropProperties.FullFrameInPlace | libs/alif_image-processing/source/aipl_crop.c:60-67 | a full-frame crop in place succeeds, changes no byte and still flushes the whole image |
| CropProperties.FullFrameCopy | libs/alif_image-processing/source/aipl_crop.c:60-65 | a full-frame crop into another buffer copies the image there byte for byte |
| CropProperties.EmptyRect | libs/alif_image-processing/source/aipl_crop.c:74-89 | a rectangle with no columns or no rows is accepted, changes no byte and flushes zero bytes |
| CropProperties.InvertedRectRejected | libs/alif_image-processing/source/aipl_crop.c:54-55 | an inverted rectangle is rejected without touching memory: by the size check of `aipl_crop_img`, or by the bounds check of `aipl_crop` when the wrapped extent happens to match the output |
| CropProperties.WrappedExtentExample | libs/alif_image-processing/source/aipl_crop.c:99-101 | with `left = 1` and `right = 0` the extent is 2^32 - 1 and passes the size check against an output that wide |
| CropProperties.CropImgOutput | libs/alif_image-processing/source/aipl_crop.c:99-116 | a successful `aipl_crop_img` writes the crop of the input image over exactly the output descriptor's `width * height * bpp` bytes |

## Left out

- The header's full colour-format table is not part of this model. `Image.Depth` models `aipl_color_format_depth` for the two formats the viewfinder declares for its images (`viewfinder/main.c:283` and `viewfinder/main.c:289`): RGB565 (16 bits) and RGB888 (24 bits).
- `SCB_CleanInvalidateDCache_by_Addr` is recorded as a request (`Memory.Flush`). The cache itself is not modelled.
- `pitch` is accepted and never read, as in the code. Source rows are `width` pixels apart, so an image whose pitch exceeds its width is read as if it were dense. The descriptor's `pitch` field is modelled only to be passed through.
- AiplCrop.Crop: requires the image byte count `width * height * bpp` to be below 2^32. With that bound, none of the `uint32_t` size products the code computes wraps around. Wrapped size products are not modelled.
- AiplCrop.Crop: requires the input and output buffers to be either the same buffer or non-overlapping. A partial overlap is undefined behaviour for the full-frame `memcpy`, and the row loop's result then depends on the offset, so it is not modelled.
- AiplCrop.CropImg: `aipl_crop_img` reads `output->width` and `input->format` (lines 101 and 106) without checking either descriptor pointer for NULL. A NULL descriptor cannot be represented, because `Descriptor` is a value. Of the buffers it requires only what `aipl_crop` requires, so the output buffer is known to hold the crop's bytes and nothing is said about its pitch.
- The viewfinder application (`viewfinder/main.c`): camera and display drivers, the frame loop and timing are I/O and are not part of this model.
