# stack-png, modelled in Dafny

`stack-png` stacks PNG images vertically. It reads every file named on the
command line, makes a canvas as wide as the widest input and as tall as all
inputs together, pastes each input centred horizontally below the previous
one, and writes the canvas to `out.png` as 8-bit RGB. Every image is held as
a `struct stack_image`: a width, a height and one flat, row-major byte buffer
with three bytes per pixel and `3 * width` bytes per row.

This project models that image engine as it is in `main.c`:

- `ImageData` holds the pure value-level model. A `Raster` is an image
  record's width, height and buffer contents. The module defines row and
  pixel offsets, reading and writing pixels, the blank canvas, and the
  paste of one image into another, with lemmas about each.
- `PngRows` models the two places where the program converts between the
  decoder's or encoder's list of row pointers and the flat buffer. Loading
  copies the first `3 * width` bytes of each decoded row, one row after the
  other. Saving points row `i` at byte `i * 3 * width`.
- `StackImage` is the in-place model. `class Image` has the fields `width`,
  `height` and `data: array<bv8>`. Its constructors and methods mirror
  `stack_image_init_blank`, the load loop, `stack_image_get_pixel`,
  `stack_image_set_pixel`, `stack_image_paste` and the save-side row split.
  Each is proved against the `ImageData`/`PngRows` function it implements.
  `memcpy` is `CopyBytes`/`MemCopy`: a single block copy.
- `Layout` covers the placement arithmetic of `main`:
  - the running `max` of the widths and the running sum of the heights;
  - the column `(width - w_i) / 2`;
  - the row cursor;
  - the facts that the bands are disjoint, fit in the canvas and cover every row.
- `Composition` defines the finished canvas as a value (a blank canvas with
  every input pasted in turn). It proves that the canvas is stacked:
  - each input's pixels sit at its offset;
  - the margins beside narrower inputs stay zero.
- `StackMain` models `main`'s two loops as methods over `Image` objects. It
  proves that `main`'s result equals the specification `Stacking`, and it
  states the end-to-end footprint and margin properties on the decoded rows
  of the inputs.

Sizes are unbounded naturals. The decoder's output for each file is a
parameter (`StackMain.Decoded`). The program's result is the canvas rows
handed to the encoder (`StackMain.Output.Written`), or the usage error when
no file is named (`NoArguments`).

The code has no gap option and no output-file option. The cursor advances by
exactly the height of each image (main.c:269), and the output name is fixed
(main.c:272). The model follows the code, so it has no gap between images.

The loader also does not force 8-bit RGB for every input. The decode
transforms at main.c:83-88 do not expand palette images, yet the load loop
copies `3 * width` bytes of every row. The model therefore makes it the
loader's precondition that every decoded row holds at least `3 * width`
bytes (`PngRows.Wide`, required by `StackImage.Image.Load`).

## Model

| member | source | states |
|---|---|---|
| ImageData.RowSize | main.c:15 | `stack_image_row_size`: `3 * width` bytes per row; `RowStart(RowSize(w), n)` is the offset of row `n`, equal to the product `3*w*n` (RowStartIsProduct) |
| ImageData.PixelAt | main.c:192-202 | a pixel inside the image is read from the three bytes at `3*width*y + 3*x`, and that offset plus 2 lies inside the buffer |
| ImageData.RowStartIsProduct | main.c:15 | the row-start offset used throughout is `3*width` bytes per row times the row number, the product the C code computes |
| ImageData.PixelInBounds | main.c:196-199 | for `x < width` and `y < height` the three byte offsets of pixel (x, y) lie inside a buffer of `height` rows |
| ImageData.WithPixel | main.c:204-211 | writing a pixel keeps the buffer length, width and height |
| ImageData.WithPixelAt | main.c:204-211 | writing pixel (x, y) changes exactly its three bytes, to r, g, b in that order; every other byte is unchanged |
| ImageData.PixelAtWithPixel | main.c:192-211 | reading back a pixel just written returns it |
| ImageData.PixelAtWithOtherPixel | main.c:192-211 | writing pixel (x, y) leaves every other pixel unchanged |
| ImageData.Blank | main.c:213-220 | the blank image has the requested width and height and a buffer of `height` rows of `3*width` bytes |
| ImageData.BlankByte | main.c:219 | every byte of the blank canvas is 0 |
| ImageData.BlankPixel | main.c:219 | every pixel of the blank canvas is black |
| ImageData.CopyInto | main.c:235-238 | a block copy keeps the buffer length |
| ImageData.CopyIntoIndex | main.c:235-238 | after a block copy of `s` at `at`, the bytes from offset `at` on are the bytes of `s` in order and every other byte is unchanged |
| ImageData.PastedRows | main.c:234-239 | the destination buffer after the first `n` passes of the paste loop; it keeps the buffer length, and PastedRowsAt gives each of its bytes |
| ImageData.Pasted | main.c:225-240 | `stack_image_paste` as a value: `dest` after all `src.height` row copies, with the same width, height and a valid buffer; PastedAt and PastedPixel give each byte and pixel |
| ImageData.PastedRowsAt | main.c:234-239 | after the first `n` row copies of the paste loop, rows `y..y+n-1` of the rectangle hold the source rows and every byte outside is unchanged |
| ImageData.PasteRowStep | main.c:232-238 | the memcpy of row `i`, from `src->data + i*src_row_size` to `dest_location + i*dest_row_size`, stays inside both buffers and is the step from `i` pasted rows to `i+1` |
| ImageData.PastedAt | main.c:222-240 | after a paste that fits, every byte inside the rectangle [x, x+src.width) x [y, y+src.height) is the corresponding source byte and every other destination byte is unchanged |
| ImageData.PastedPixel | main.c:222-240 | after a paste, `get_pixel(dest, px, py)` is `get_pixel(src, px-x, py-y)` inside the rectangle and the old destination pixel outside it |
| ImageData.PastedOutsideBand | main.c:234-239 | rows above and below the pasted band are not touched |
| ImageData.PastedInsideBand | main.c:234-239 | a row of the band that was zero becomes the source row at its columns and stays zero beside it |
| PngRows.Clip | main.c:110-115 | taking the first `row_size` bytes of each decoded row gives rows of exactly `row_size` bytes, one per decoded row |
| PngRows.ClipUniform | main.c:110-115 | rows that are already `row_size` bytes long are copied whole |
| PngRows.SplitRows | main.c:162-163 | the save-side split gives `height` rows of `row_size` bytes each |
| PngRows.SplitRowsAt | main.c:162-163 | row `i` of the split is the `row_size` bytes starting at `i*row_size` |
| PngRows.FlattenSplit | main.c:156-163 | laying the split rows end to end gives back the buffer |
| PngRows.SplitFlatten | main.c:110-115 | splitting the flattened rows gives back the rows: loading then saving is a round trip |
| PngRows.Flatten | main.c:110-115 | the buffer the load loop builds: the rows laid end to end, first row first; FlattenLength, FlattenRow and SplitFlatten characterise it |
| PngRows.FlattenRow | main.c:110-115 | row `i` of the flattened buffer is the `row_size` bytes at `i*row_size` |
| PngRows.ImageRows | main.c:156-163 | the rows handed to the encoder are `height` rows of `row_size` bytes, and laid end to end they are exactly the image buffer |
| PngRows.LoadedImage | main.c:100-116 | the loaded image has the decoder's width and height and a buffer of `height` rows of `3*width` bytes |
| PngRows.LoadedRows | main.c:100-116 | the rows of a loaded image are the clipped decoded rows, and the decoded rows themselves when each is exactly `3*width` bytes |
| PngRows.LoadedByte | main.c:110-115 | byte (row, col) of a loaded image is byte `col` of decoded row `row` |
| PngRows.ImageRowsAt | main.c:162-163 | byte `col` of output row `row` is byte (row, col) of the image |
| StackImage.CopyBytes | main.c:111-114 | copying a block into an array stores exactly `CopyInto` of its old contents |
| StackImage.MemCopy | main.c:235-238 | memcpy between two distinct buffers stores the source range at the offset and changes nothing else |
| StackImage.CopyRows | main.c:110-115 | the load loop leaves the buffer as the clipped decoded rows laid end to end |
| StackImage.Image.InitBlank | main.c:213-220 | a fresh image with the given width and height, a buffer of exactly `3*width*height` bytes, all zero |
| StackImage.Image.Load | main.c:100-116 | a fresh image with the decoder's size whose contents are `LoadedImage` of the decoded rows |
| StackImage.Image.GetPixel | main.c:192-202 | returns the bytes at offsets `3*width*y + 3*x`, `+1`, `+2` as (r, g, b), which is `PixelAt` of the image |
| StackImage.Image.SetPixel | main.c:204-211 | the new image is `WithPixel` of the old one; every byte outside the pixel's three is unchanged |
| StackImage.Image.Paste | main.c:222-240 | under the caller's guarantee `x+src.width <= width` and `y+src.height <= height`, the destination becomes `Pasted` of its old value and the source is not modified |
| StackImage.Image.PasteRow | main.c:235-238 | one pass of the paste loop takes the buffer from `i` pasted rows to `i+1` |
| StackImage.Image.Rows | main.c:156-163 | the row split returns `height` rows that are `ImageRows` of the image and that flatten back to the buffer |
| Layout.Max | main.c:16 | the `max` macro: a result at least as large as both arguments and equal to one of them |
| Layout.MaxWidthOf | main.c:254-261 | the running `max` of the first `n` widths is at least each of them |
| Layout.MaxWidth | main.c:243-258 | no input is wider than the canvas |
| Layout.MaxWidthAttained | main.c:258 | some input is exactly as wide as the canvas |
| Layout.YOffset | main.c:265-269 | `YOffset(images, i)` is the sum of the heights of inputs 0..i-1, the cursor `y` before pass `i`, and the running `height` after `i` passes of the load loop; YOffsetMono, Stacked and WithinCanvas characterise it |
| Layout.TotalHeight | main.c:243-259 | the canvas height: the sum of all input heights, the final value of both the running `height` and the cursor; WithinCanvas shows every band ends within it |
| Layout.YOffsetMono | main.c:269 | the cursor never moves up |
| Layout.XOffset | main.c:267 | the column `(width - w)/2` keeps the image inside the canvas, and it splits the margin so that the right margin equals the left or is one pixel wider |
| Layout.Stacked | main.c:265-270 | image `i` ends on or above the row where every later image starts, so the bands are disjoint |
| Layout.WithinCanvas | main.c:263-270 | each image at its (x, y) lies inside the canvas, so every call of paste meets the caller's guarantee |
| Layout.SingleInput | main.c:254-270 | a single input gives a canvas of its own size with the input at column 0 |
| Layout.Band | main.c:265-270 | every canvas row lies in the band of some input |
| Layout.BandUnique | main.c:265-270 | a canvas row lies in only one input's band |
| Composition.CompositeN | main.c:263-270 | the canvas after `n` pastes has width `max` of the widths and height the sum of the heights |
| Composition.Composite | main.c:263-270 | the canvas after the whole paste loop: valid, `max` width and summed height; CompositeStacked gives its contents |
| Composition.PasteKeepsBand | main.c:268 | pasting one input leaves the band of every other input unchanged |
| Composition.PastePaintsBand | main.c:268 | pasting an input onto its blank band paints its row, centred, with zeros beside it |
| Composition.CompositeNBlank | main.c:263-270 | the band of an input not yet pasted is still zero |
| Composition.CompositeNAt | main.c:263-270 | once input `i` is pasted its band holds its rows, centred, with zeros beside them, and later pastes do not change that |
| Composition.CompositeStacked | main.c:263-270 | the finished canvas is stacked: `max` width, summed height, and every band row is its input's row, centred, with zero margins |
| Composition.StackedFootprint | main.c:263-270 | pixel (px, py) of input `i` is pixel (x_i+px, y_i+py) of the canvas |
| Composition.StackedFootprintByte | main.c:263-270 | each byte of input `i` is the matching byte of the canvas at its offset |
| Composition.StackedMargin | main.c:213-270 | in the band of input `i`, every pixel left or right of that input is black |
| Composition.StackedMarginByte | main.c:213-270 | each byte of such a margin pixel is 0 |
| StackMain.Loads | main.c:254-257 | one loaded image per input, in order, each the `LoadedImage` of its decoded rows |
| StackMain.Stacking | main.c:242-273 | a usage error exactly when no file is named; otherwise an image of `max` width and summed height, handed over as `height` rows of `3*width` bytes |
| StackMain.LoadAll | main.c:254-261 | the load loop yields one valid image per input with the input's contents, and leaves `width` at the maximum width and `height` at the sum of the heights |
| StackMain.LoadInput | main.c:256-259 | one pass of the load loop loads input `i` and advances the running maximum and sum by it |
| StackMain.PasteAll | main.c:265-270 | the paste loop turns the blank canvas into the finished composite |
| StackMain.PasteInput | main.c:267-269 | one pass of the paste loop pastes input `i` at `((width - w_i)/2, y_i)` |
| StackMain.Stack | main.c:242-273 | `main` produces exactly `Stacking` of its inputs |
| StackMain.OutputFootprint | main.c:242-273 | every byte of every decoded input appears in the output rows at row `y_i + py`, pixel `x_i + px` |
| StackMain.LoadedFootprint | main.c:254-270 | the same byte on the canvas, before the canvas is cut into rows |
| StackMain.OutputMargin | main.c:213-273 | in the output, every byte of the band of input `i` that lies left or right of that input is 0 |

## Left out

- libpng: signature check, reader and writer setup and teardown, decoding and encoding, and the IHDR header (main.c:40-98, main.c:118-154, main.c:165-181). These are foreign library calls and file I/O. The decoder's width, height and rows are a parameter (`Decoded`). The output is the list of rows that would be handed to `png_set_rows`.
- Opening files, `fprintf`, and exiting on errors inside the reader and writer. Only the `argc == 1` usage error of `main` is modelled, as `NoArguments`.
- `malloc`, `calloc` and `free`, and `stack_image_destroy`. Allocation failure is not modelled, and the image array of `main` is a sequence of `Image` objects.
- `size_t` overflow in `3 * width * height` and in the height sum, and the `int i` loop counter. All sizes are unbounded naturals.
- `DEBUG_BOOL` and `struct stack_pixel` layout details. A pixel is a value with three bytes.
- StackImage.Image.Load: requires every decoded row to hold at least `3 * width` bytes (`PngRows.Wide`, and so `StackMain.Decoded.WellFormed`). Palette inputs give shorter rows, because no expand transform is requested, and the model does not capture the out-of-bounds read they would cause.
- StackImage.MemCopy: it requires the two buffers to be distinct. Overlapping `memcpy` is undefined in C and never happens in the program.
- StackImage.Image.GetPixel: requires the pixel to be inside the image. The C function does no bounds check, and reads outside the buffer are not modelled.
- StackImage.Image.SetPixel: requires the pixel to be inside the image. The C function does no bounds check, and writes outside the buffer are not modelled.
- StackImage.Image.Paste: it requires the rectangle to fit, and the two buffers to be distinct (a self-paste is an overlapping `memcpy`, undefined in C, and `main` never does one). The C function does no checking, and the model does not describe writes outside the buffer. `Layout.WithinCanvas` shows that every call from `main` meets the requirement.
- A gap between images and a choice of output file name: the code has neither.
