/**
 * The image record: a width, a height and a heap buffer of bytes that the
 * operations below read and write in place. Each operation is proved against
 * the value-level functions of module ImageData.
 */
module StackImage {
  import opened ImageData
  import opened PngRows

  /** `memcpy(dst + at, bytes, |bytes|)`: one contiguous block copy. */
  method CopyBytes(dst: array<Byte>, at: nat, bytes: seq<Byte>)
    requires at + |bytes| <= dst.Length
    modifies dst
    ensures dst[..] == CopyInto(old(dst[..]), at, bytes)
  {
    forall k | 0 <= k < |bytes| {
      dst[at + k] := bytes[k];
    }
    forall k | 0 <= k < dst.Length
      ensures dst[k] == CopyInto(old(dst[..]), at, bytes)[k]
    {
      CopyIntoIndex(old(dst[..]), at, bytes, k);
    }
  }

  /** `memcpy(dst + at, src + from, len)` between two distinct buffers. */
  method MemCopy(dst: array<Byte>, at: nat, src: array<Byte>, from: nat, len: nat)
    requires dst != src && at + len <= dst.Length && from + len <= src.Length
    modifies dst
    ensures dst[..] == CopyInto(old(dst[..]), at, old(src[from .. from + len]))
  {
    CopyBytes(dst, at, src[from .. from + len]);
  }

  /**
   * The loading loop: row `i` of the decoder's rows is copied, `rowSize` bytes
   * of it, to offset `i * rowSize` of the buffer.
   */
  method CopyRows(buffer: array<Byte>, rows: seq<seq<Byte>>, rowSize: nat)
    requires Wide(rows, rowSize) && buffer.Length == RowStart(rowSize, |rows|)
    modifies buffer
    ensures buffer[..] == Flatten(Clip(rows, rowSize))
  {
    ghost var clipped := Clip(rows, rowSize);
    var i := 0;
    while i < |rows|
      invariant i <= |rows|
      invariant RowStart(rowSize, i) <= buffer.Length
      invariant buffer[..RowStart(rowSize, i)] == Flatten(clipped[..i])
    {
      RowStartIsProduct(rowSize, i);
      FlattenStep(clipped, rowSize, i, buffer[..]);
      CopyBytes(buffer, i * rowSize, rows[i][..rowSize]);
      i := i + 1;
    }
    assert clipped[..|rows|] == clipped;
    assert buffer[..] == buffer[..RowStart(rowSize, |rows|)];
  }

  class Image {
    var width: nat
    var height: nat
    var data: array<Byte>

    /** The buffer holds `height` rows of `RowSize(width)` bytes. */
    ghost predicate Valid()
      reads this
    {
      data.Length == RowStart(RowSize(width), height)
    }

    /** The image as a value. */
    ghost function Value(): (r: Raster)
      reads this, data
      ensures Valid() ==> r.Valid()
    {
      Raster(width, height, data[..])
    }

    /** A `width` x `height` image with a zeroed buffer of `3 * width * height` bytes. */
    constructor InitBlank(width: nat, height: nat)
      ensures Valid() && fresh(data)
      ensures this.width == width && this.height == height
      ensures data.Length == 3 * width * height
      ensures Value() == Blank(width, height)
    {
      this.width := width;
      this.height := height;
      RowStartIsProduct(RowSize(width), height);
      data := new Byte[RowSize(width) * height](_ => 0);
    }

    /**
     * An image whose buffer is the decoder's rows laid end to end: the first
     * `RowSize(width)` bytes of each row, which is all of a row of an 8-bit RGB image.
     */
    constructor Load(width: nat, height: nat, rows: seq<seq<Byte>>)
      requires |rows| == height && Wide(rows, RowSize(width))
      ensures Valid() && fresh(data)
      ensures this.width == width && this.height == height
      ensures Value() == LoadedImage(width, height, rows)
    {
      var rowSize := RowSize(width);
      RowStartIsProduct(rowSize, height);
      var buffer := new Byte[rowSize * height];
      CopyRows(buffer, rows, rowSize);
      this.width := width;
      this.height := height;
      data := buffer;
    }

    /** The pixel at (x, y): the three bytes at `3 * width * y + 3 * x`. */
    method GetPixel(x: nat, y: nat) returns (p: Pixel)
      requires Valid() && x < width && y < height
      ensures p == PixelAt(Value(), x, y)
      ensures p == Pixel(data[PixelOffset(width, x, y)], data[PixelOffset(width, x, y) + 1], data[PixelOffset(width, x, y) + 2])
    {
      var rowSize := RowSize(width);
      PixelInBounds(width, height, x, y);
      RowStartIsProduct(rowSize, height);
      p := Pixel(data[rowSize * y + 3 * x], data[rowSize * y + 3 * x + 1], data[rowSize * y + 3 * x + 2]);
    }

    /** Writes the three bytes of pixel (x, y) and nothing else. */
    method SetPixel(p: Pixel, x: nat, y: nat)
      requires Valid() && x < width && y < height
      modifies data
      ensures Valid()
      ensures Value() == WithPixel(old(Value()), p, x, y)
      ensures forall k :: 0 <= k < data.Length && !(PixelOffset(width, x, y) <= k < PixelOffset(width, x, y) + 3) ==>
                data[k] == old(data[k])
    {
      var rowSize := RowSize(width);
      PixelInBounds(width, height, x, y);
      RowStartIsProduct(rowSize, height);
      data[rowSize * y + 3 * x] := p.r;
      data[rowSize * y + 3 * x + 1] := p.g;
      data[rowSize * y + 3 * x + 2] := p.b;
    }

    /**
     * Copies every row of `src` into this image at column x, row y. The copy
     * itself checks nothing: the caller guarantees the rectangle fits.
     */
    method Paste(src: Image, x: nat, y: nat)
      requires Valid() && src.Valid() && src.data != data
      requires x + src.width <= width && y + src.height <= height
      modifies data
      ensures Valid()
      ensures Value() == Pasted(old(Value()), old(src.Value()), x, y)
      ensures src.Value() == old(src.Value())
    {
      var destRowSize := RowSize(width);
      var srcRowSize := RowSize(src.width);
      var destLocation := y * destRowSize + 3 * x;
      ghost var dest0, src0 := Value(), src.Value();
      var i := 0;
      while i < src.height
        invariant i <= src.height
        invariant data[..] == PastedRows(dest0, src0, x, y, i)
        invariant src.data[..] == src0.data
      {
        PasteRow(src, x, y, i, destRowSize, srcRowSize, destLocation, dest0, src0);
        i := i + 1;
      }
    }

    /** The body of the paste loop: the `memcpy` of row `i` of `src` to its place in this image. */
    method PasteRow(src: Image, x: nat, y: nat, i: nat, destRowSize: nat, srcRowSize: nat, destLocation: int,
                    ghost dest0: Raster, ghost src0: Raster)
      requires Fits(dest0, src0, x, y) && i < src0.height && src.data != data
      requires dest0.width == width && src0.width == src.width
      requires destRowSize == RowSize(width) && srcRowSize == RowSize(src.width) && destLocation == y * destRowSize + 3 * x
      requires data[..] == PastedRows(dest0, src0, x, y, i) && src.data[..] == src0.data
      modifies data
      ensures data[..] == PastedRows(dest0, src0, x, y, i + 1)
    {
      ProductOffsets(destRowSize, srcRowSize, x, y, i);
      PasteRowStep(dest0, src0, x, y, i, destRowSize, srcRowSize, RowStart(destRowSize, y) + 3 * x);
      MemCopy(data, destLocation + i * destRowSize, src.data, i * srcRowSize, srcRowSize);
    }

    /** The rows handed to the encoder: row `i` starts at byte `i * RowSize(width)`. */
    method Rows() returns (rows: seq<seq<Byte>>)
      requires Valid()
      ensures rows == ImageRows(Value())
      ensures |rows| == height && Flatten(rows) == data[..]
    {
      var rowSize := RowSize(width);
      rows := [];
      var i := 0;
      RowStartIsProduct(rowSize, height);
      while i < height
        invariant i <= height
        invariant RowStart(rowSize, i) <= RowStart(rowSize, height)
        invariant rows == SplitRows(data[..], rowSize, i)
      {
        SpanInBuffer(rowSize, height, i, 0, rowSize);
        RowStartIsProduct(rowSize, i);
        rows := rows + [data[i * rowSize .. i * rowSize + rowSize]];
        i := i + 1;
      }
    }
  }
}
