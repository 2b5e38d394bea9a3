/**
 * The program: load every input, paste each one onto a blank canvas as wide
 * as the widest input and as tall as all of them, centred on its own band, and
 * hand the canvas to the writer row by row. The decoder's output for each file
 * is a parameter; opening, decoding and encoding files are not modelled.
 */
module StackMain {
  import opened ImageData
  import opened PngRows
  import opened Layout
  import opened Composition
  import opened StackImage

  /** What the decoder delivers for one input file: the image size and its pixel rows. */
  datatype Decoded = Decoded(width: nat, height: nat, rows: seq<seq<Byte>>) {
    /** One row per line, each holding at least the `RowSize(width)` bytes the loader copies. */
    predicate WellFormed() {
      |rows| == height && Wide(rows, RowSize(width))
    }
  }

  /** What the program ends with. */
  datatype Output =
    | NoArguments                                          // usage error, exit status EXIT_FAILURE
    | Written(width: nat, height: nat, rows: seq<seq<Byte>>) // the 8-bit RGB image handed to the encoder

  predicate AllWellFormed(inputs: seq<Decoded>) {
    forall k :: 0 <= k < |inputs| ==> inputs[k].WellFormed()
  }

  /** The inputs as loaded images. */
  function Loads(inputs: seq<Decoded>): (images: seq<Raster>)
    requires AllWellFormed(inputs)
    ensures |images| == |inputs| && AllValid(images)
    ensures forall k :: 0 <= k < |inputs| ==>
              images[k] == LoadedImage(inputs[k].width, inputs[k].height, inputs[k].rows)
  {
    seq(|inputs|, k requires 0 <= k < |inputs| => LoadedImage(inputs[k].width, inputs[k].height, inputs[k].rows))
  }

  /**
   * The result the program is meant to produce: a usage error exactly when
   * there are no inputs, otherwise an image as wide as the widest input and as
   * tall as all of them, handed over as rows of `RowSize(width)` bytes.
   */
  function Stacking(inputs: seq<Decoded>): (out: Output)
    requires AllWellFormed(inputs)
    ensures out.NoArguments? <==> |inputs| == 0
    ensures out.Written? ==> out.width == MaxWidth(Loads(inputs)) && out.height == TotalHeight(Loads(inputs))
    ensures out.Written? ==> |out.rows| == out.height && Uniform(out.rows, RowSize(out.width))
  {
    if |inputs| == 0 then NoArguments
    else
      var canvas := Composite(Loads(inputs));
      Written(canvas.width, canvas.height, ImageRows(canvas))
  }

  /**
   * The first loop of `main`: load each input and keep the running maximum of
   * the widths and the running sum of the heights.
   */
  method LoadAll(inputs: seq<Decoded>) returns (images: seq<Image>, width: nat, height: nat)
    requires AllWellFormed(inputs)
    ensures |images| == |inputs|
    ensures forall k :: 0 <= k < |images| ==> images[k].Valid() && images[k].Value() == Loads(inputs)[k]
    ensures width == MaxWidth(Loads(inputs)) && height == TotalHeight(Loads(inputs))
  {
    ghost var values := Loads(inputs);
    images, width, height := [], 0, 0;
    var i := 0;
    while i < |inputs|
      invariant i <= |inputs| && |images| == i
      invariant forall k :: 0 <= k < i ==> images[k].Valid() && images[k].Value() == values[k]
      invariant width == MaxWidthOf(values, i) && height == YOffset(values, i)
    {
      var image;
      image, width, height := LoadInput(inputs, i, width, height, values);
      images := images + [image];
      i := i + 1;
    }
  }

  /**
   * The body of the first loop: input `i` loaded, the running maximum updated
   * with `max` and the running sum with `+=`.
   */
  method LoadInput(inputs: seq<Decoded>, i: nat, width: nat, height: nat, ghost values: seq<Raster>)
    returns (image: Image, width': nat, height': nat)
    requires AllWellFormed(inputs) && i < |inputs| && values == Loads(inputs)
    requires width == MaxWidthOf(values, i) && height == YOffset(values, i)
    ensures fresh(image) && fresh(image.data) && image.Valid() && image.Value() == values[i]
    ensures width' == MaxWidthOf(values, i + 1) && height' == YOffset(values, i + 1)
  {
    image := new Image.Load(inputs[i].width, inputs[i].height, inputs[i].rows);
    width' := Max(width, image.width);
    height' := height + image.height;
  }

  /**
   * The second loop of `main`: paste input `i` at column `(width - w_i) / 2`
   * and at the row cursor `y`, then move the cursor down by its height.
   */
  method PasteAll(result: Image, images: seq<Image>, width: nat, ghost values: seq<Raster>)
    requires |images| == |values| && AllValid(values) && width == MaxWidth(values)
    requires forall k :: 0 <= k < |images| ==>
               images[k].Valid() && images[k].Value() == values[k] && images[k].data != result.data
    requires result.Valid() && result.width == width && result.height == TotalHeight(values)
    requires result.Value() == CompositeN(values, 0)
    modifies result.data
    ensures result.Valid() && result.Value() == Composite(values)
  {
    var y := 0;
    var i := 0;
    while i < |images|
      invariant i <= |images| && y == YOffset(values, i)
      invariant result.Valid() && result.Value() == CompositeN(values, i)
      invariant forall k :: 0 <= k < |images| ==> images[k].Value() == values[k]
    {
      PasteInput(result, images[i], width, y, values, i);
      y := y + images[i].height;
      i := i + 1;
    }
  }

  /** The body of the second loop: input `i` pasted centred at the row cursor, which is `YOffset(values, i)`. */
  method PasteInput(result: Image, src: Image, width: nat, y: nat, ghost values: seq<Raster>, ghost i: nat)
    requires i < |values| && AllValid(values) && width == MaxWidth(values) && y == YOffset(values, i)
    requires src.Valid() && src.Value() == values[i] && src.data != result.data
    requires result.Valid() && result.width == width && result.height == TotalHeight(values)
    requires result.Value() == CompositeN(values, i)
    modifies result.data
    ensures result.Valid() && result.Value() == CompositeN(values, i + 1)
  {
    WithinCanvas(values, i);
    var x := (width - src.width) / 2;
    result.Paste(src, x, y);
  }

  /** `main`: a usage error without inputs, otherwise the stacked image handed to the writer. */
  method Stack(inputs: seq<Decoded>) returns (out: Output)
    requires AllWellFormed(inputs)
    ensures out == Stacking(inputs)
  {
    if |inputs| == 0 {
      return NoArguments;
    }
    var images, width, height := LoadAll(inputs);
    var result := new Image.InitBlank(width, height);
    PasteAll(result, images, width, Loads(inputs));
    var rows := result.Rows();
    out := Written(result.width, result.height, rows);
  }

  /**
   * End to end: channel `c` of pixel (px, py) of input `i`, as decoded, is
   * written at row `YOffset + py`, pixel `XOffset + px` of the output.
   */
  lemma {:induction false} OutputFootprint(inputs: seq<Decoded>, i: nat, px: nat, py: nat, c: nat)
    requires AllWellFormed(inputs) && i < |inputs|
    requires px < inputs[i].width && py < inputs[i].height && c < 3
    ensures Stacking(inputs).Written?
    ensures YOffset(Loads(inputs), i) + py < |Stacking(inputs).rows|
    ensures 3 * (XOffset(MaxWidth(Loads(inputs)), inputs[i].width) + px) + c
            < |Stacking(inputs).rows[YOffset(Loads(inputs), i) + py]|
    ensures 3 * px + c < |inputs[i].rows[py]|
    ensures Stacking(inputs).rows[YOffset(Loads(inputs), i) + py][3 * (XOffset(MaxWidth(Loads(inputs)), inputs[i].width) + px) + c]
            == inputs[i].rows[py][3 * px + c]
  {
    assert Loads(inputs)[i] == LoadedImage(inputs[i].width, inputs[i].height, inputs[i].rows);
    LoadedFootprint(Loads(inputs), i, inputs[i].width, inputs[i].height, inputs[i].rows, px, py, c);
    assert Stacking(inputs).rows == ImageRows(Composite(Loads(inputs)));
    ImageRowsAt(Composite(Loads(inputs)), YOffset(Loads(inputs), i) + py,
                3 * (XOffset(MaxWidth(Loads(inputs)), inputs[i].width) + px) + c);
  }

  /** The same byte on the stacked canvas, before it is cut into rows, for input `i` loaded from `rows`. */
  lemma {:induction false} LoadedFootprint(values: seq<Raster>, i: nat, width: nat, height: nat, rows: seq<seq<Byte>>,
                                           px: nat, py: nat, c: nat)
    requires AllValid(values) && i < |values|
    requires |rows| == height && Wide(rows, RowSize(width)) && values[i] == LoadedImage(width, height, rows)
    requires px < width && py < height && c < 3
    ensures YOffset(values, i) + py < TotalHeight(values)
    ensures 3 * (XOffset(MaxWidth(values), width) + px) + c < RowSize(MaxWidth(values))
    ensures 3 * px + c < |rows[py]|
    ensures ByteAt(Composite(values), YOffset(values, i) + py, 3 * (XOffset(MaxWidth(values), width) + px) + c)
            == rows[py][3 * px + c]
  {
    CompositeStacked(values);
    StackedFootprintByte(values, Composite(values), i, px, py, c);
    LoadedByte(width, height, rows, py, 3 * px + c);
  }

  /**
   * End to end: in the rows of the band of input `i`, every pixel left or
   * right of that input is written as three zero bytes.
   */
  lemma {:induction false} OutputMargin(inputs: seq<Decoded>, i: nat, px: nat, py: nat, c: nat)
    requires AllWellFormed(inputs) && i < |inputs| && c < 3
    requires px < MaxWidth(Loads(inputs))
    requires YOffset(Loads(inputs), i) <= py < YOffset(Loads(inputs), i) + inputs[i].height
    requires !(XOffset(MaxWidth(Loads(inputs)), inputs[i].width) <= px < XOffset(MaxWidth(Loads(inputs)), inputs[i].width) + inputs[i].width)
    ensures Stacking(inputs).Written?
    ensures py < |Stacking(inputs).rows| && 3 * px + c < |Stacking(inputs).rows[py]|
    ensures Stacking(inputs).rows[py][3 * px + c] == 0
  {
    var values := Loads(inputs);
    CompositeStacked(values);
    StackedMarginByte(values, Composite(values), i, px, py, c);
    ImageRowsAt(Composite(values), py, 3 * px + c);
  }
}
