/**
 * The output image as a value: a blank canvas of `MaxWidth` x `TotalHeight`
 * pixels onto which every input is pasted in turn at its place in the layout.
 */
module Composition {
  import opened ImageData
  import opened Layout

  /** Every input buffer holds its `height` rows of `RowSize(width)` bytes. */
  predicate AllValid(images: seq<Raster>) {
    forall i :: 0 <= i < |images| ==> images[i].Valid()
  }

  /** The canvas after the first `n` inputs have been pasted. */
  function CompositeN(images: seq<Raster>, n: nat): (r: Raster)
    requires AllValid(images) && n <= |images|
    ensures r.Valid() && r.width == MaxWidth(images) && r.height == TotalHeight(images)
  {
    if n == 0 then Blank(MaxWidth(images), TotalHeight(images))
    else
      WithinCanvas(images, n - 1);
      Pasted(CompositeN(images, n - 1), images[n - 1],
             XOffset(MaxWidth(images), images[n - 1].width), YOffset(images, n - 1))
  }

  /** The finished canvas. */
  function Composite(images: seq<Raster>): (r: Raster)
    requires AllValid(images)
    ensures r.Valid() && r.width == MaxWidth(images) && r.height == TotalHeight(images)
  {
    CompositeN(images, |images|)
  }

  /**
   * What the program promises about its output: a canvas of `MaxWidth` x
   * `TotalHeight` pixels on which row `row` of the band of input `i` is that
   * input's row `row`, centred, with zero bytes beside it.
   */
  ghost predicate IsStacked(images: seq<Raster>, canvas: Raster)
    requires AllValid(images)
  {
    canvas.Valid() && canvas.width == MaxWidth(images) && canvas.height == TotalHeight(images) &&
    forall i, row: nat, col: nat |
      0 <= i < |images| && row < images[i].height && YOffset(images, i) + row < TotalHeight(images) &&
      col < RowSize(MaxWidth(images)) ::
      ByteAt(canvas, YOffset(images, i) + row, col) == Painted(images[i], XOffset(MaxWidth(images), images[i].width), row, col)
  }

  /** Pasting input `n - 1` leaves the band of every other input as it was. */
  lemma {:induction false} PasteKeepsBand(images: seq<Raster>, n: nat, i: nat, row: nat, col: nat)
    requires AllValid(images) && 0 < n <= |images| && i < |images| && i != n - 1
    requires row < images[i].height && col < RowSize(MaxWidth(images))
    ensures YOffset(images, i) + row < TotalHeight(images)
    ensures ByteAt(CompositeN(images, n), YOffset(images, i) + row, col) ==
            ByteAt(CompositeN(images, n - 1), YOffset(images, i) + row, col)
  {
    WithinCanvas(images, i);
    WithinCanvas(images, n - 1);
    if i < n - 1 {
      Stacked(images, i, n - 1);
    } else {
      Stacked(images, n - 1, i);
    }
    PastedOutsideBand(CompositeN(images, n - 1), images[n - 1], XOffset(MaxWidth(images), images[n - 1].width),
                      YOffset(images, n - 1), YOffset(images, i) + row, col);
  }

  /** Pasting input `n - 1` onto its still blank band paints that band. */
  lemma {:induction false} PastePaintsBand(images: seq<Raster>, n: nat, row: nat, col: nat)
    requires AllValid(images) && 0 < n <= |images|
    requires row < images[n - 1].height && col < RowSize(MaxWidth(images))
    requires YOffset(images, n - 1) + row < TotalHeight(images)
    requires ByteAt(CompositeN(images, n - 1), YOffset(images, n - 1) + row, col) == 0
    ensures ByteAt(CompositeN(images, n), YOffset(images, n - 1) + row, col) ==
            Painted(images[n - 1], XOffset(MaxWidth(images), images[n - 1].width), row, col)
  {
    WithinCanvas(images, n - 1);
    PastedInsideBand(CompositeN(images, n - 1), images[n - 1], XOffset(MaxWidth(images), images[n - 1].width),
                     YOffset(images, n - 1), row, YOffset(images, n - 1) + row, col);
  }

  /** Before input `i` is pasted its band is still 0. */
  lemma {:induction false} CompositeNBlank(images: seq<Raster>, n: nat, i: nat, row: nat, col: nat)
    requires AllValid(images) && n <= i < |images|
    requires row < images[i].height && col < RowSize(MaxWidth(images))
    ensures YOffset(images, i) + row < TotalHeight(images)
    ensures ByteAt(CompositeN(images, n), YOffset(images, i) + row, col) == 0
  {
    WithinCanvas(images, i);
    if n == 0 {
      BlankByte(MaxWidth(images), TotalHeight(images), YOffset(images, i) + row, col);
    } else {
      CompositeNBlank(images, n - 1, i, row, col);
      PasteKeepsBand(images, n, i, row, col);
    }
  }

  /** Once input `i` is pasted its band holds it, and later pastes leave it alone. */
  lemma {:induction false} CompositeNAt(images: seq<Raster>, n: nat, i: nat, row: nat, col: nat)
    requires AllValid(images) && i < n <= |images|
    requires row < images[i].height && col < RowSize(MaxWidth(images))
    ensures YOffset(images, i) + row < TotalHeight(images)
    ensures ByteAt(CompositeN(images, n), YOffset(images, i) + row, col) ==
            Painted(images[i], XOffset(MaxWidth(images), images[i].width), row, col)
  {
    WithinCanvas(images, i);
    if i == n - 1 {
      CompositeNBlank(images, n - 1, i, row, col);
      PastePaintsBand(images, n, row, col);
    } else {
      CompositeNAt(images, n - 1, i, row, col);
      PasteKeepsBand(images, n, i, row, col);
    }
  }

  /** Pasting the inputs one after another onto a blank canvas stacks them. */
  lemma {:induction false} CompositeStacked(images: seq<Raster>)
    requires AllValid(images)
    ensures IsStacked(images, Composite(images))
  {
    forall i, row: nat, col: nat |
      0 <= i < |images| && row < images[i].height && YOffset(images, i) + row < TotalHeight(images) &&
      col < RowSize(MaxWidth(images))
      ensures ByteAt(Composite(images), YOffset(images, i) + row, col) ==
              Painted(images[i], XOffset(MaxWidth(images), images[i].width), row, col)
    {
      CompositeNAt(images, |images|, i, row, col);
    }
  }

  /** Reading one byte of a stacked canvas: canvas row `canvasRow` is row `row` of the band of input `i`. */
  lemma {:induction false} StackedAt(images: seq<Raster>, canvas: Raster, i: nat, row: nat, canvasRow: nat, col: nat)
    requires AllValid(images) && IsStacked(images, canvas) && i < |images|
    requires row < images[i].height && canvasRow == YOffset(images, i) + row && col < RowSize(MaxWidth(images))
    ensures canvasRow < canvas.height && col < RowSize(canvas.width)
    ensures ByteAt(canvas, canvasRow, col) == Painted(images[i], XOffset(MaxWidth(images), images[i].width), row, col)
  {
    WithinCanvas(images, i);
    assert ByteAt(canvas, YOffset(images, i) + row, col) == Painted(images[i], XOffset(MaxWidth(images), images[i].width), row, col);
    SameByte(canvas, canvasRow, YOffset(images, i) + row, col, col);
  }

  /**
   * Inside its span, an image pasted at column x paints its own bytes. Takes the
   * canvas column as `canvasCol` so that `canvasCol - 3 * x` is matched with `col`.
   */
  lemma {:induction false} PaintedInside(img: Raster, x: nat, row: nat, col: nat, canvasCol: nat)
    requires img.Valid() && row < img.height && col < RowSize(img.width) && canvasCol == 3 * x + col
    ensures Painted(img, x, row, canvasCol) == ByteAt(img, row, col)
  {
    assert canvasCol - 3 * x == col;
  }

  /** Pixel (px, py) of input `i` is pixel (XOffset + px, YOffset + py) of a stacked canvas. */
  lemma {:induction false} StackedFootprint(images: seq<Raster>, canvas: Raster, i: nat, px: nat, py: nat)
    requires AllValid(images) && IsStacked(images, canvas) && i < |images|
    requires px < images[i].width && py < images[i].height
    ensures XOffset(MaxWidth(images), images[i].width) + px < MaxWidth(images)
    ensures YOffset(images, i) + py < TotalHeight(images)
    ensures PixelAt(canvas, XOffset(MaxWidth(images), images[i].width) + px, YOffset(images, i) + py)
            == PixelAt(images[i], px, py)
  {
    WithinCanvas(images, i);
    StackedFootprintByte(images, canvas, i, px, py, 0);
    StackedFootprintByte(images, canvas, i, px, py, 1);
    StackedFootprintByte(images, canvas, i, px, py, 2);
    SamePixel(canvas, XOffset(MaxWidth(images), images[i].width) + px, YOffset(images, i) + py, images[i], px, py);
  }

  /** Byte `c` of pixel (px, py) of input `i` is the matching byte of a stacked canvas. */
  lemma {:induction false} StackedFootprintByte(images: seq<Raster>, canvas: Raster, i: nat, px: nat, py: nat, c: nat)
    requires AllValid(images) && IsStacked(images, canvas) && i < |images|
    requires px < images[i].width && py < images[i].height && c < 3
    ensures XOffset(MaxWidth(images), images[i].width) + px < MaxWidth(images)
    ensures YOffset(images, i) + py < TotalHeight(images)
    ensures ByteAt(canvas, YOffset(images, i) + py, 3 * (XOffset(MaxWidth(images), images[i].width) + px) + c)
            == ByteAt(images[i], py, 3 * px + c)
  {
    WithinCanvas(images, i);
    StackedAt(images, canvas, i, py, YOffset(images, i) + py, 3 * (XOffset(MaxWidth(images), images[i].width) + px) + c);
    PaintedInside(images[i], XOffset(MaxWidth(images), images[i].width), py, 3 * px + c,
                  3 * (XOffset(MaxWidth(images), images[i].width) + px) + c);
  }

  /**
   * A pixel of a stacked canvas in the band of input `i` but left or right of
   * that input is black: the margins beside narrower inputs stay 0. Every
   * canvas row lies in exactly one band (Layout.Band, Layout.BandUnique).
   */
  lemma {:induction false} StackedMargin(images: seq<Raster>, canvas: Raster, i: nat, px: nat, py: nat)
    requires AllValid(images) && IsStacked(images, canvas) && i < |images|
    requires px < MaxWidth(images) && YOffset(images, i) <= py < YOffset(images, i) + images[i].height
    requires !(XOffset(MaxWidth(images), images[i].width) <= px < XOffset(MaxWidth(images), images[i].width) + images[i].width)
    ensures py < TotalHeight(images)
    ensures PixelAt(canvas, px, py) == Black
  {
    StackedMarginByte(images, canvas, i, px, py, 0);
    StackedMarginByte(images, canvas, i, px, py, 1);
    StackedMarginByte(images, canvas, i, px, py, 2);
    BlackPixel(canvas, px, py);
  }

  /** Byte `c` of such a margin pixel is 0. */
  lemma {:induction false} StackedMarginByte(images: seq<Raster>, canvas: Raster, i: nat, px: nat, py: nat, c: nat)
    requires AllValid(images) && IsStacked(images, canvas) && i < |images| && c < 3
    requires px < MaxWidth(images) && YOffset(images, i) <= py < YOffset(images, i) + images[i].height
    requires !(XOffset(MaxWidth(images), images[i].width) <= px < XOffset(MaxWidth(images), images[i].width) + images[i].width)
    ensures py < canvas.height && 3 * px + c < RowSize(canvas.width)
    ensures ByteAt(canvas, py, 3 * px + c) == 0
  {
    StackedAt(images, canvas, i, py - YOffset(images, i), py, 3 * px + c);
  }
}
