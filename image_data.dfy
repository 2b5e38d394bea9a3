/**
 * Value-level model of an 8-bit RGB image as the stacker lays it out in memory:
 * a flat, row-major byte buffer, three bytes per pixel, no padding between rows.
 * Everything here is pure; the in-place class in module StackImage is proved
 * against these functions.
 */
module ImageData {

  type Byte = bv8

  /** One RGB pixel. */
  datatype Pixel = Pixel(r: Byte, g: Byte, b: Byte)

  /** The background value of a freshly cleared canvas. */
  const Black := Pixel(0, 0, 0)

  /** The state of an image record: width, height and the bytes of its buffer. */
  datatype Raster = Raster(width: nat, height: nat, data: seq<Byte>) {
    /** The buffer holds exactly `height` rows of `RowSize(width)` bytes. */
    predicate Valid() {
      |data| == RowStart(RowSize(width), height)
    }
  }

  /** Bytes in one row of an image `width` pixels wide. */
  function RowSize(width: nat): nat {
    3 * width
  }

  /**
   * Offset of row `n` in a buffer of `rs`-byte rows, that is `rs * n`
   * (RowStartIsProduct). It is written as repeated addition so that the
   * row-major reasoning below stays linear.
   */
  function RowStart(rs: nat, n: nat): nat {
    if n == 0 then 0 else RowStart(rs, n - 1) + rs
  }

  /** Offset of the first byte of pixel (x, y). */
  function PixelOffset(width: nat, x: nat, y: nat): nat {
    RowStart(RowSize(width), y) + 3 * x
  }

  // ---------------------------------------------------------------------------
  // Row-major arithmetic

  lemma {:induction false} RowStartIsProduct(rs: nat, n: nat)
    ensures RowStart(rs, n) == rs * n
  {
    if n > 0 {
      RowStartIsProduct(rs, n - 1);
      assert rs * n == rs * (n - 1) + rs;
    }
  }

  lemma {:induction false} RowStartMono(rs: nat, a: nat, b: nat)
    requires a <= b
    ensures RowStart(rs, a) <= RowStart(rs, b)
  {
    if a < b {
      RowStartMono(rs, a, b - 1);
    }
  }

  lemma {:induction false} RowStartAdd(rs: nat, a: nat, b: nat)
    ensures RowStart(rs, a + b) == RowStart(rs, a) + RowStart(rs, b)
  {
    if b > 0 {
      RowStartAdd(rs, a, b - 1);
    }
  }

  /** A span of `len` bytes starting at column `lo` of row `row` ends inside the buffer. */
  lemma {:induction false} SpanInBuffer(rs: nat, h: nat, row: nat, lo: nat, len: nat)
    requires row < h && lo + len <= rs
    ensures RowStart(rs, row) + lo + len <= RowStart(rs, h)
  {
    RowStartMono(rs, row + 1, h);
  }

  /**
   * Byte (row, col) of a buffer with rows of `rs` bytes lies in the span
   * [lo, lo + len) of row `r0` exactly when it is in that row and column range.
   */
  lemma {:induction false} RowLocate(rs: nat, r0: nat, lo: nat, len: nat, row: nat, col: nat)
    requires col < rs && lo + len <= rs
    ensures (RowStart(rs, r0) + lo <= RowStart(rs, row) + col < RowStart(rs, r0) + lo + len)
            <==> (row == r0 && lo <= col < lo + len)
  {
    if row < r0 {
      RowStartMono(rs, row + 1, r0);
    } else if row > r0 {
      RowStartMono(rs, r0 + 1, row);
    }
  }

  /** With x < width and y < height, the last byte of pixel (x, y) is inside the buffer. */
  lemma {:induction false} PixelInBounds(width: nat, height: nat, x: nat, y: nat)
    requires x < width && y < height
    ensures PixelOffset(width, x, y) == RowSize(width) * y + 3 * x
    ensures PixelOffset(width, x, y) + 2 < RowStart(RowSize(width), height)
    ensures RowSize(width) * y + 3 * x + 2 < RowSize(width) * height
  {
    SpanInBuffer(RowSize(width), height, y, 3 * x, 3);
    RowStartIsProduct(RowSize(width), y);
    RowStartIsProduct(RowSize(width), height);
  }

  /** The products the paste loop computes are row starts. */
  lemma {:induction false} ProductOffsets(rs: nat, srs: nat, x: nat, y: nat, i: nat)
    ensures y * rs + 3 * x == RowStart(rs, y) + 3 * x
    ensures i * rs == RowStart(rs, i) && i * srs == RowStart(srs, i)
  {
    RowStartIsProduct(rs, y);
    RowStartIsProduct(rs, i);
    RowStartIsProduct(srs, i);
  }


  // ---------------------------------------------------------------------------
  // Row/column access

  /** Byte `col` of line `row`. */
  function ByteAt(img: Raster, row: nat, col: nat): Byte
    requires img.Valid() && row < img.height && col < RowSize(img.width)
  {
    SpanInBuffer(RowSize(img.width), img.height, row, col, 1);
    img.data[RowStart(RowSize(img.width), row) + col]
  }

  /**
   * The same row, however it is computed, holds the same bytes: bridges a
   * `row`/`row'` or `col`/`col'` pair computed by different arithmetic, which
   * the solver does not match on its own.
   */
  lemma {:induction false} SameByte(img: Raster, row: nat, row': nat, col: nat, col': nat)
    requires img.Valid() && row < img.height && col < RowSize(img.width) && row == row' && col == col'
    ensures ByteAt(img, row, col) == ByteAt(img, row', col')
  {
  }

  /** The pixel at (x, y): the three bytes starting at `PixelOffset(width, x, y)`. */
  function PixelAt(img: Raster, x: nat, y: nat): (p: Pixel)
    requires img.Valid() && x < img.width && y < img.height
    ensures PixelOffset(img.width, x, y) + 2 < |img.data|
    ensures p == Pixel(img.data[PixelOffset(img.width, x, y)],
                       img.data[PixelOffset(img.width, x, y) + 1],
                       img.data[PixelOffset(img.width, x, y) + 2])
  {
    PixelInBounds(img.width, img.height, x, y);
    Pixel(ByteAt(img, y, 3 * x), ByteAt(img, y, 3 * x + 1), ByteAt(img, y, 3 * x + 2))
  }

  /** A pixel whose three bytes are 0 is black. */
  lemma {:induction false} BlackPixel(img: Raster, x: nat, y: nat)
    requires img.Valid() && x < img.width && y < img.height
    requires ByteAt(img, y, 3 * x) == 0 && ByteAt(img, y, 3 * x + 1) == 0 && ByteAt(img, y, 3 * x + 2) == 0
    ensures PixelAt(img, x, y) == Black
  {
  }

  /** Two pixels are equal when their three bytes are. */
  lemma {:induction false} SamePixel(a: Raster, x: nat, y: nat, b: Raster, x': nat, y': nat)
    requires a.Valid() && x < a.width && y < a.height
    requires b.Valid() && x' < b.width && y' < b.height
    requires ByteAt(a, y, 3 * x) == ByteAt(b, y', 3 * x')
    requires ByteAt(a, y, 3 * x + 1) == ByteAt(b, y', 3 * x' + 1)
    requires ByteAt(a, y, 3 * x + 2) == ByteAt(b, y', 3 * x' + 2)
    ensures PixelAt(a, x, y) == PixelAt(b, x', y')
  {
  }

  /** Channel `c` (0 = r, 1 = g, 2 = b) of a pixel. */
  function Channel(p: Pixel, c: nat): Byte
    requires c < 3
  {
    if c == 0 then p.r else if c == 1 then p.g else p.b
  }

  /** The image after writing pixel `p` at (x, y). */
  function WithPixel(img: Raster, p: Pixel, x: nat, y: nat): (r: Raster)
    requires img.Valid() && x < img.width && y < img.height
    ensures r.Valid() && r.width == img.width && r.height == img.height
  {
    PixelInBounds(img.width, img.height, x, y);
    var o := PixelOffset(img.width, x, y);
    img.(data := img.data[o := p.r][o + 1 := p.g][o + 2 := p.b])
  }

  /** Writing a pixel changes exactly the three bytes of that pixel. */
  lemma {:induction false} WithPixelAt(img: Raster, p: Pixel, x: nat, y: nat, row: nat, col: nat)
    requires img.Valid() && x < img.width && y < img.height
    requires row < img.height && col < RowSize(img.width)
    ensures ByteAt(WithPixel(img, p, x, y), row, col) ==
              if row == y && 3 * x <= col < 3 * x + 3 then Channel(p, col - 3 * x)
              else ByteAt(img, row, col)
  {
    RowLocate(RowSize(img.width), y, 3 * x, 3, row, col);
    SpanInBuffer(RowSize(img.width), img.height, row, col, 1);
    PixelInBounds(img.width, img.height, x, y);
  }

  /** Reading back a pixel just written yields it. */
  lemma {:induction false} PixelAtWithPixel(img: Raster, p: Pixel, x: nat, y: nat)
    requires img.Valid() && x < img.width && y < img.height
    ensures PixelAt(WithPixel(img, p, x, y), x, y) == p
  {
    WithPixelAt(img, p, x, y, y, 3 * x);
    WithPixelAt(img, p, x, y, y, 3 * x + 1);
    WithPixelAt(img, p, x, y, y, 3 * x + 2);
  }

  /** Writing a pixel leaves every other pixel as it was. */
  lemma {:induction false} PixelAtWithOtherPixel(img: Raster, p: Pixel, x: nat, y: nat, x': nat, y': nat)
    requires img.Valid() && x < img.width && y < img.height
    requires x' < img.width && y' < img.height && (x', y') != (x, y)
    ensures PixelAt(WithPixel(img, p, x, y), x', y') == PixelAt(img, x', y')
  {
    WithPixelAt(img, p, x, y, y', 3 * x');
    WithPixelAt(img, p, x, y, y', 3 * x' + 1);
    WithPixelAt(img, p, x, y, y', 3 * x' + 2);
  }

  // ---------------------------------------------------------------------------
  // Blank canvas

  /** A `width` x `height` image whose buffer is all zero bytes. */
  function Blank(width: nat, height: nat): (r: Raster)
    ensures r.Valid() && r.width == width && r.height == height
  {
    Raster(width, height, seq(RowStart(RowSize(width), height), _ => 0))
  }

  /** Every byte of a blank image is 0. */
  lemma {:induction false} BlankByte(width: nat, height: nat, row: nat, col: nat)
    requires row < height && col < RowSize(width)
    ensures ByteAt(Blank(width, height), row, col) == 0
  {
    SpanInBuffer(RowSize(width), height, row, col, 1);
  }

  /** Every pixel of a blank image is black. */
  lemma {:induction false} BlankPixel(width: nat, height: nat, x: nat, y: nat)
    requires x < width && y < height
    ensures PixelAt(Blank(width, height), x, y) == Black
  {
  }

  // ---------------------------------------------------------------------------
  // Paste

  /**
   * Byte (row, col) of a canvas row onto which row `row` of `img` is pasted at
   * column x: the image's byte inside its span, 0 beside it.
   */
  function Painted(img: Raster, x: nat, row: nat, col: nat): Byte
    requires img.Valid()
  {
    if row < img.height && 3 * x <= col < 3 * x + RowSize(img.width) then ByteAt(img, row, col - 3 * x) else 0
  }

  /** Pasting `src` with its top-left corner at (x, y) stays inside `dest`. */
  predicate Fits(dest: Raster, src: Raster, x: nat, y: nat) {
    dest.Valid() && src.Valid() && x + src.width <= dest.width && y + src.height <= dest.height
  }

  /** Byte (row, col) of the destination lies in the rectangle `src` covers at (x, y). */
  predicate Covers(src: Raster, x: nat, y: nat, row: nat, col: nat) {
    y <= row < y + src.height && 3 * x <= col < 3 * x + RowSize(src.width)
  }

  /** Row `i` of `src` as a contiguous byte range. */
  function SourceRow(src: Raster, i: nat): (row: seq<Byte>)
    requires src.Valid() && i < src.height
    ensures |row| == RowSize(src.width)
  {
    SpanInBuffer(RowSize(src.width), src.height, i, 0, RowSize(src.width));
    src.data[RowStart(RowSize(src.width), i) .. RowStart(RowSize(src.width), i) + RowSize(src.width)]
  }

  /** Byte `c` of `SourceRow(src, i)` is byte (i, c) of `src`. */
  lemma {:induction false} SourceRowAt(src: Raster, i: nat, c: nat)
    requires src.Valid() && i < src.height && c < RowSize(src.width)
    ensures SourceRow(src, i)[c] == ByteAt(src, i, c)
  {
    SpanInBuffer(RowSize(src.width), src.height, i, 0, RowSize(src.width));
  }

  /** `memcpy(d + at, s, |s|)` on buffer contents: the bytes of `s` stored one after another from `at`. */
  function CopyInto(d: seq<Byte>, at: nat, s: seq<Byte>): (r: seq<Byte>)
    requires at + |s| <= |d|
    ensures |r| == |d|
    decreases |s|
  {
    if |s| == 0 then d else CopyInto(d[at := s[0]], at + 1, s[1..])
  }

  /** After the copy, byte `k` comes from `s` inside the block [at, at + |s|) and from `d` outside it. */
  lemma {:induction false} CopyIntoIndex(d: seq<Byte>, at: nat, s: seq<Byte>, k: nat)
    requires at + |s| <= |d| && k < |d|
    ensures CopyInto(d, at, s)[k] == if at <= k < at + |s| then s[k - at] else d[k]
    decreases |s|
  {
    if |s| > 0 {
      CopyIntoIndex(d[at := s[0]], at + 1, s[1..], k);
    }
  }

  /** The copied block ends the first `at + |s|` bytes of the result. */
  lemma {:induction false} CopyIntoPrefix(d: seq<Byte>, at: nat, s: seq<Byte>)
    requires at + |s| <= |d|
    ensures CopyInto(d, at, s)[..at + |s|] == d[..at] + s
  {
    forall k | 0 <= k < at + |s|
      ensures CopyInto(d, at, s)[k] == (d[..at] + s)[k]
    {
      CopyIntoIndex(d, at, s, k);
    }
  }

  /**
   * Copying `s` to offset `at`, which is column `lo` of row `r0` of a row-major
   * buffer, seen from byte (row, col).
   */
  lemma {:induction false} CopyRowAt(d: seq<Byte>, rs: nat, h: nat, r0: nat, lo: nat, at: nat, s: seq<Byte>, row: nat, col: nat)
    requires |d| == RowStart(rs, h) && r0 < h && lo + |s| <= rs && row < h && col < rs
    requires at == RowStart(rs, r0) + lo
    ensures at + |s| <= |d| && RowStart(rs, row) + col < |d|
    ensures CopyInto(d, at, s)[RowStart(rs, row) + col] ==
              if row == r0 && lo <= col < lo + |s| then s[col - lo] else d[RowStart(rs, row) + col]
  {
    var k := RowStart(rs, row) + col;
    SpanInBuffer(rs, h, r0, lo, |s|);
    SpanInBuffer(rs, h, row, col, 1);
    RowLocate(rs, r0, lo, |s|, row, col);
    CopyIntoAt(d, at, s, k, row == r0 && lo <= col < lo + |s|, col - lo);
  }

  /**
   * Byte `k` after a copy, given whether `k` falls in the copied block and where.
   * `inBlock` and `j` name that case and the offset in `s` up front, so that the
   * caller's own expressions for them are matched without extra arithmetic.
   */
  lemma {:induction false} CopyIntoAt(d: seq<Byte>, at: nat, s: seq<Byte>, k: nat, inBlock: bool, j: int)
    requires at + |s| <= |d| && k < |d|
    requires (at <= k < at + |s|) <==> inBlock
    requires inBlock ==> j == k - at
    ensures CopyInto(d, at, s)[k] == if inBlock then s[j] else d[k]
  {
    CopyIntoIndex(d, at, s, k);
  }

  /** The destination buffer after the first `n` rows of `src` have been copied. */
  function PastedRows(dest: Raster, src: Raster, x: nat, y: nat, n: nat): (r: seq<Byte>)
    requires Fits(dest, src, x, y) && n <= src.height
    ensures |r| == |dest.data|
  {
    if n == 0 then dest.data
    else
      SpanInBuffer(RowSize(dest.width), dest.height, y + n - 1, 3 * x, RowSize(src.width));
      CopyInto(PastedRows(dest, src, x, y, n - 1), PixelOffset(dest.width, x, y + n - 1), SourceRow(src, n - 1))
  }

  /** `dest` after every row of `src` has been copied to it at column x, row y. */
  function Pasted(dest: Raster, src: Raster, x: nat, y: nat): (r: Raster)
    requires Fits(dest, src, x, y)
    ensures r.Valid() && r.width == dest.width && r.height == dest.height
  {
    dest.(data := PastedRows(dest, src, x, y, src.height))
  }

  /** One more row: the previous buffer with row `n - 1` of `src` copied into its block. */
  lemma {:induction false} PastedRowsUnfold(dest: Raster, src: Raster, x: nat, y: nat, n: nat)
    requires Fits(dest, src, x, y) && 0 < n <= src.height
    ensures PixelOffset(dest.width, x, y + n - 1) + RowSize(src.width) <= |dest.data|
    ensures PastedRows(dest, src, x, y, n) ==
              CopyInto(PastedRows(dest, src, x, y, n - 1), PixelOffset(dest.width, x, y + n - 1), SourceRow(src, n - 1))
  {
    SpanInBuffer(RowSize(dest.width), dest.height, y + n - 1, 3 * x, RowSize(src.width));
  }

  /**
   * The paste loop's step: copying row `i` of `src`, the `srs` bytes at
   * `RowStart(srs, i)`, to offset `location + RowStart(rs, i)` of the buffer
   * after `i` rows, where `location` is the offset of pixel (x, y), gives the
   * buffer after `i + 1` rows.
   */
  lemma {:induction false} PasteRowStep(dest: Raster, src: Raster, x: nat, y: nat, i: nat, rs: nat, srs: nat, location: nat)
    requires Fits(dest, src, x, y) && i < src.height
    requires rs == RowSize(dest.width) && srs == RowSize(src.width) && location == PixelOffset(dest.width, x, y)
    ensures RowStart(srs, i) + srs <= |src.data|
    ensures location + RowStart(rs, i) + srs <= |dest.data|
    ensures CopyInto(PastedRows(dest, src, x, y, i), location + RowStart(rs, i), src.data[RowStart(srs, i) .. RowStart(srs, i) + srs])
            == PastedRows(dest, src, x, y, i + 1)
  {
    assert RowStart(srs, i) + srs <= |src.data| by {
      SpanInBuffer(srs, src.height, i, 0, srs);
    }
    assert location + RowStart(rs, i) == PixelOffset(dest.width, x, y + i) by {
      RowStartAdd(rs, y, i);
    }
    PastedRowsUnfold(dest, src, x, y, i + 1);
  }

  /** Copying row `n - 1` of `src` changes only the bytes of that row's block. */
  lemma {:induction false} PastedRowsStep(dest: Raster, src: Raster, x: nat, y: nat, n: nat, row: nat, col: nat)
    requires Fits(dest, src, x, y) && 0 < n <= src.height
    requires row < dest.height && col < RowSize(dest.width)
    ensures RowStart(RowSize(dest.width), row) + col < |dest.data|
    ensures PastedRows(dest, src, x, y, n)[RowStart(RowSize(dest.width), row) + col] ==
              if row == y + n - 1 && 3 * x <= col < 3 * x + RowSize(src.width)
              then ByteAt(src, n - 1, col - 3 * x)
              else PastedRows(dest, src, x, y, n - 1)[RowStart(RowSize(dest.width), row) + col]
  {
    var rs := RowSize(dest.width);
    var prev, block := PastedRows(dest, src, x, y, n - 1), SourceRow(src, n - 1);
    var cur, k := PastedRows(dest, src, x, y, n), RowStart(rs, row) + col;
    PastedRowsUnfold(dest, src, x, y, n);
    CopyRowAt(prev, rs, dest.height, y + n - 1, 3 * x, PixelOffset(dest.width, x, y + n - 1), block, row, col);
    if row == y + n - 1 && 3 * x <= col < 3 * x + RowSize(src.width) {
      SourceRowAt(src, n - 1, col - 3 * x);
      assert cur[k] == block[col - 3 * x];
    } else {
      assert cur[k] == prev[k];
    }
  }

  /** After `n` rows, the first `n` rows of the rectangle hold `src` and every other byte is unchanged. */
  lemma {:induction false} PastedRowsAt(dest: Raster, src: Raster, x: nat, y: nat, n: nat, row: nat, col: nat)
    requires Fits(dest, src, x, y) && n <= src.height
    requires row < dest.height && col < RowSize(dest.width)
    ensures RowStart(RowSize(dest.width), row) + col < |dest.data|
    ensures PastedRows(dest, src, x, y, n)[RowStart(RowSize(dest.width), row) + col] ==
              if y <= row < y + n && 3 * x <= col < 3 * x + RowSize(src.width)
              then ByteAt(src, row - y, col - 3 * x)
              else dest.data[RowStart(RowSize(dest.width), row) + col]
  {
    SpanInBuffer(RowSize(dest.width), dest.height, row, col, 1);
    if n > 0 {
      PastedRowsAt(dest, src, x, y, n - 1, row, col);
      PastedRowsStep(dest, src, x, y, n, row, col);
    }
  }

  /**
   * The paste, byte by byte: inside the rectangle [x, x + src.width) x [y, y + src.height)
   * each byte is the corresponding byte of `src`; outside it `dest` is unchanged.
   */
  lemma {:induction false} PastedAt(dest: Raster, src: Raster, x: nat, y: nat, row: nat, col: nat)
    requires Fits(dest, src, x, y)
    requires row < dest.height && col < RowSize(dest.width)
    ensures ByteAt(Pasted(dest, src, x, y), row, col) ==
              if Covers(src, x, y, row, col) then ByteAt(src, row - y, col - 3 * x)
              else ByteAt(dest, row, col)
  {
    PastedRowsAt(dest, src, x, y, src.height, row, col);
  }

  /** Rows outside the band [y, y + src.height) are left as they were by the paste. */
  lemma {:induction false} PastedOutsideBand(dest: Raster, src: Raster, x: nat, y: nat, row: nat, col: nat)
    requires Fits(dest, src, x, y) && row < dest.height && col < RowSize(dest.width)
    requires row < y || y + src.height <= row
    ensures ByteAt(Pasted(dest, src, x, y), row, col) == ByteAt(dest, row, col)
  {
    PastedAt(dest, src, x, y, row, col);
  }

  /**
   * Row `srcRow` of the band [y, y + src.height) after a paste onto a row of
   * zeroes: `src`'s bytes inside its columns, 0 beside them.
   */
  lemma {:induction false} PastedInsideBand(dest: Raster, src: Raster, x: nat, y: nat, srcRow: nat, row: nat, col: nat)
    requires Fits(dest, src, x, y) && row < dest.height && col < RowSize(dest.width)
    requires srcRow < src.height && row == y + srcRow && ByteAt(dest, row, col) == 0
    ensures ByteAt(Pasted(dest, src, x, y), row, col) == Painted(src, x, srcRow, col)
  {
    PastedAt(dest, src, x, y, row, col);
    if 3 * x <= col < 3 * x + RowSize(src.width) {
      SameByte(src, row - y, srcRow, col - 3 * x, col - 3 * x);
    }
  }

  /** The paste, pixel by pixel: `src` is readable back at offset (x, y), everything else is `dest`. */
  lemma {:induction false} PastedPixel(dest: Raster, src: Raster, x: nat, y: nat, px: nat, py: nat)
    requires Fits(dest, src, x, y)
    requires px < dest.width && py < dest.height
    ensures PixelAt(Pasted(dest, src, x, y), px, py) ==
              if x <= px < x + src.width && y <= py < y + src.height
              then PixelAt(src, px - x, py - y)
              else PixelAt(dest, px, py)
  {
    PastedAt(dest, src, x, y, py, 3 * px);
    PastedAt(dest, src, x, y, py, 3 * px + 1);
    PastedAt(dest, src, x, y, py, 3 * px + 2);
    if x <= px < x + src.width && y <= py < y + src.height {
      SameByte(src, py - y, py - y, 3 * px - 3 * x, 3 * (px - x));
      SameByte(src, py - y, py - y, 3 * px + 1 - 3 * x, 3 * (px - x) + 1);
      SameByte(src, py - y, py - y, 3 * px + 2 - 3 * x, 3 * (px - x) + 2);
      SamePixel(Pasted(dest, src, x, y), px, py, src, px - x, py - y);
    } else {
      SamePixel(Pasted(dest, src, x, y), px, py, dest, px, py);
    }
  }
}
