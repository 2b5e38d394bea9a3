/**
 * Where the program puts each input image on the output canvas: the canvas is
 * as wide as the widest input and as tall as all inputs together; image `i` is
 * centred horizontally and starts on the row where image `i - 1` ended.
 */
module Layout {
  import opened ImageData

  /** The `max` macro on sizes: the larger of the two. */
  function Max(a: nat, b: nat): (m: nat)
    ensures a <= m && b <= m && (m == a || m == b)
  {
    if a > b then a else b
  }

  /** The running maximum of the widths of the first `n` inputs, starting from 0. */
  function MaxWidthOf(images: seq<Raster>, n: nat): (w: nat)
    requires n <= |images|
    ensures forall i :: 0 <= i < n ==> images[i].width <= w
  {
    if n == 0 then 0 else Max(MaxWidthOf(images, n - 1), images[n - 1].width)
  }

  /** The width of the canvas: no input is wider. */
  function MaxWidth(images: seq<Raster>): (w: nat)
    ensures forall i :: 0 <= i < |images| ==> images[i].width <= w
  {
    MaxWidthOf(images, |images|)
  }

  /** Some input is exactly as wide as the canvas. */
  lemma {:induction false} MaxWidthAttained(images: seq<Raster>, n: nat) returns (i: nat)
    requires 0 < n <= |images|
    ensures i < n && images[i].width == MaxWidthOf(images, n)
  {
    if n == 1 || images[n - 1].width >= MaxWidthOf(images, n - 1) {
      i := n - 1;
    } else {
      i := MaxWidthAttained(images, n - 1);
    }
  }

  /** The row at which input `i` is pasted: the running sum of the heights of the inputs before it. */
  function YOffset(images: seq<Raster>, i: nat): nat
    requires i <= |images|
  {
    if i == 0 then 0 else YOffset(images, i - 1) + images[i - 1].height
  }

  /** The height of the canvas: all heights added up. */
  function TotalHeight(images: seq<Raster>): nat {
    YOffset(images, |images|)
  }

  /** The column at which an image `width` pixels wide is pasted on a canvas `canvasWidth` pixels wide. */
  function XOffset(canvasWidth: nat, width: nat): (x: nat)
    requires width <= canvasWidth
    ensures x + width <= canvasWidth
    ensures canvasWidth - (x + width) == x || canvasWidth - (x + width) == x + 1
  {
    (canvasWidth - width) / 2
  }

  /** The cursor never moves up. */
  lemma {:induction false} YOffsetMono(images: seq<Raster>, i: nat, j: nat)
    requires i <= j <= |images|
    ensures YOffset(images, i) <= YOffset(images, j)
    decreases j
  {
    if i < j {
      YOffsetMono(images, i, j - 1);
    }
  }

  /** Image `i` ends on or above the row where any later image `j` starts: the bands do not overlap. */
  lemma {:induction false} Stacked(images: seq<Raster>, i: nat, j: nat)
    requires i < j < |images|
    ensures YOffset(images, i) + images[i].height <= YOffset(images, j)
  {
    YOffsetMono(images, i + 1, j);
  }

  /** Image `i`, placed at (XOffset, YOffset), lies inside the canvas. */
  lemma {:induction false} WithinCanvas(images: seq<Raster>, i: nat)
    requires i < |images|
    ensures images[i].width <= MaxWidth(images)
    ensures YOffset(images, i) + images[i].height <= TotalHeight(images)
    ensures XOffset(MaxWidth(images), images[i].width) + images[i].width <= MaxWidth(images)
  {
    YOffsetMono(images, i + 1, |images|);
  }

  /** A single input gives a canvas of its own size, with the input at column 0. */
  lemma {:induction false} SingleInput(images: seq<Raster>)
    requires |images| == 1
    ensures MaxWidth(images) == images[0].width && TotalHeight(images) == images[0].height
    ensures XOffset(MaxWidth(images), images[0].width) == 0
  {
    assert MaxWidthOf(images, 1) == Max(MaxWidthOf(images, 0), images[0].width);
    assert YOffset(images, 1) == YOffset(images, 0) + images[0].height;
  }

  /** The input whose band holds canvas row `row`, searching the first `n` inputs. */
  function BandOf(images: seq<Raster>, n: nat, row: nat): (i: nat)
    requires n <= |images| && row < YOffset(images, n)
    ensures i < n && YOffset(images, i) <= row < YOffset(images, i) + images[i].height
  {
    if row >= YOffset(images, n - 1) then n - 1 else BandOf(images, n - 1, row)
  }

  /** The input whose band holds canvas row `row`. */
  function Band(images: seq<Raster>, row: nat): (i: nat)
    requires row < TotalHeight(images)
    ensures i < |images| && YOffset(images, i) <= row < YOffset(images, i) + images[i].height
  {
    BandOf(images, |images|, row)
  }

  /** Only one image's band holds a given row. */
  lemma {:induction false} BandUnique(images: seq<Raster>, row: nat, i: nat)
    requires i < |images| && YOffset(images, i) <= row < YOffset(images, i) + images[i].height
    ensures row < TotalHeight(images) && Band(images, row) == i
  {
    WithinCanvas(images, i);
    var j := Band(images, row);
    if i < j {
      Stacked(images, i, j);
    } else if j < i {
      Stacked(images, j, i);
    }
  }
}
