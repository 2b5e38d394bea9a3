/**
 * The conversion between the codec's list of pixel rows and the image's flat
 * buffer: loading lays the rows end to end, saving cuts the buffer back into
 * rows of `RowSize(width)` bytes.
 */
module PngRows {
  import opened ImageData

  /** Every row is `rs` bytes long. */
  predicate Uniform(rows: seq<seq<Byte>>, rs: nat) {
    forall i :: 0 <= i < |rows| ==> |rows[i]| == rs
  }

  /** Every row has at least `rs` bytes. */
  predicate Wide(rows: seq<seq<Byte>>, rs: nat) {
    forall i :: 0 <= i < |rows| ==> rs <= |rows[i]|
  }

  /** The first `rs` bytes of every row: what a copy of `rs` bytes per row reads. */
  function Clip(rows: seq<seq<Byte>>, rs: nat): (r: seq<seq<Byte>>)
    requires Wide(rows, rs)
    ensures |r| == |rows| && Uniform(r, rs)
  {
    seq(|rows|, i requires 0 <= i < |rows| => rows[i][..rs])
  }

  /** Rows that are exactly `rs` bytes long are not changed by clipping. */
  lemma {:induction false} ClipUniform(rows: seq<seq<Byte>>, rs: nat)
    requires Uniform(rows, rs)
    ensures Wide(rows, rs) && Clip(rows, rs) == rows
  {
    assert forall i :: 0 <= i < |rows| ==> rows[i][..rs] == rows[i];
  }

  /** The rows laid end to end, first row first. */
  function Flatten(rows: seq<seq<Byte>>): seq<Byte> {
    if rows == [] then [] else Flatten(rows[..|rows| - 1]) + rows[|rows| - 1]
  }

  /** The first `n` rows of `rs` bytes each, cut out of `data`. */
  function SplitRows(data: seq<Byte>, rs: nat, n: nat): (rows: seq<seq<Byte>>)
    requires RowStart(rs, n) <= |data|
    ensures |rows| == n && Uniform(rows, rs)
  {
    if n == 0 then []
    else
      SplitRows(data, rs, n - 1) + [data[RowStart(rs, n - 1) .. RowStart(rs, n - 1) + rs]]
  }

  /** Flattening one more row appends it. */
  lemma {:induction false} FlattenSnoc(rows: seq<seq<Byte>>, i: nat)
    requires i < |rows|
    ensures Flatten(rows[..i + 1]) == Flatten(rows[..i]) + rows[i]
  {
    assert rows[..i + 1][..i] == rows[..i];
  }

  /** Row `i` of the split is the `rs` bytes at offset `RowStart(rs, i)`. */
  lemma {:induction false} SplitRowsAt(data: seq<Byte>, rs: nat, n: nat, i: nat)
    requires RowStart(rs, n) <= |data| && i < n
    ensures RowStart(rs, i) + rs <= |data|
    ensures SplitRows(data, rs, n)[i] == data[RowStart(rs, i) .. RowStart(rs, i) + rs]
  {
    SpanInBuffer(rs, n, i, 0, rs);
    if i < n - 1 {
      SplitRowsAt(data, rs, n - 1, i);
    }
  }

  /** Uniform rows flatten to a buffer of `rs` bytes per row. */
  lemma {:induction false} FlattenLength(rows: seq<seq<Byte>>, rs: nat)
    requires Uniform(rows, rs)
    ensures |Flatten(rows)| == RowStart(rs, |rows|)
  {
    if rows != [] {
      FlattenLength(rows[..|rows| - 1], rs);
    }
  }

  /** Row `i` of uniform rows sits at offset `RowStart(rs, i)` of the flattened buffer. */
  lemma {:induction false} FlattenRow(rows: seq<seq<Byte>>, rs: nat, i: nat)
    requires Uniform(rows, rs) && i < |rows|
    ensures |Flatten(rows)| == RowStart(rs, |rows|) && RowStart(rs, i) + rs <= |Flatten(rows)|
    ensures Flatten(rows)[RowStart(rs, i) .. RowStart(rs, i) + rs] == rows[i]
  {
    FlattenLength(rows, rs);
    SpanInBuffer(rs, |rows|, i, 0, rs);
    var front := rows[..|rows| - 1];
    FlattenLength(front, rs);
    assert Flatten(rows) == Flatten(front) + rows[|rows| - 1];
    if i < |rows| - 1 {
      FlattenRow(front, rs, i);
      assert front[i] == rows[i];
    } else {
      assert RowStart(rs, i) == |Flatten(front)|;
    }
  }

  /** Splitting a flattened list of uniform rows gives the rows back. */
  lemma {:induction false} SplitFlatten(rows: seq<seq<Byte>>, rs: nat)
    requires Uniform(rows, rs)
    ensures |Flatten(rows)| == RowStart(rs, |rows|)
    ensures SplitRows(Flatten(rows), rs, |rows|) == rows
  {
    FlattenLength(rows, rs);
    var data := Flatten(rows);
    forall i | 0 <= i < |rows|
      ensures SplitRows(data, rs, |rows|)[i] == rows[i]
    {
      FlattenRow(rows, rs, i);
      SplitRowsAt(data, rs, |rows|, i);
    }
  }

  /** Flattening the first `n` rows cut out of a buffer gives back its first `RowStart(rs, n)` bytes. */
  lemma {:induction false} FlattenSplit(data: seq<Byte>, rs: nat, n: nat)
    requires RowStart(rs, n) <= |data|
    ensures Flatten(SplitRows(data, rs, n)) == data[..RowStart(rs, n)]
  {
    if n > 0 {
      var rows := SplitRows(data, rs, n);
      var at := RowStart(rs, n - 1);
      assert rows[..n - 1] == SplitRows(data, rs, n - 1);
      FlattenSplit(data, rs, n - 1);
      assert data[..at + rs] == data[..at] + data[at .. at + rs];
    }
  }

  /** Copying row `i` right after the first `i` rows extends the flattened prefix by that row. */
  lemma {:induction false} FlattenStep(rows: seq<seq<Byte>>, rs: nat, i: nat, before: seq<Byte>)
    requires Uniform(rows, rs) && i < |rows| && |before| == RowStart(rs, |rows|)
    requires RowStart(rs, i) <= |before| && before[..RowStart(rs, i)] == Flatten(rows[..i])
    ensures RowStart(rs, i) + rs <= |before|
    ensures CopyInto(before, RowStart(rs, i), rows[i])[..RowStart(rs, i + 1)] == Flatten(rows[..i + 1])
  {
    SpanInBuffer(rs, |rows|, i, 0, rs);
    CopyIntoPrefix(before, RowStart(rs, i), rows[i]);
    FlattenSnoc(rows, i);
  }

  /** The rows of an image, as the writer hands them to the encoder. */
  function ImageRows(img: Raster): (rows: seq<seq<Byte>>)
    requires img.Valid()
    ensures |rows| == img.height && Uniform(rows, RowSize(img.width))
    ensures Flatten(rows) == img.data
  {
    FlattenSplit(img.data, RowSize(img.width), img.height);
    SplitRows(img.data, RowSize(img.width), img.height)
  }

  /** The image loaded from the decoder's rows: the first `RowSize(width)` bytes of each row laid end to end. */
  function LoadedImage(width: nat, height: nat, rows: seq<seq<Byte>>): (r: Raster)
    requires |rows| == height && Wide(rows, RowSize(width))
    ensures r.Valid() && r.width == width && r.height == height
  {
    FlattenLength(Clip(rows, RowSize(width)), RowSize(width));
    Raster(width, height, Flatten(Clip(rows, RowSize(width))))
  }

  /**
   * Saving a loaded image hands back the bytes it was loaded from, row by row,
   * and exactly the decoder's rows when they are all `RowSize(width)` bytes long.
   */
  lemma {:induction false} LoadedRows(width: nat, height: nat, rows: seq<seq<Byte>>)
    requires |rows| == height && Wide(rows, RowSize(width))
    ensures ImageRows(LoadedImage(width, height, rows)) == Clip(rows, RowSize(width))
    ensures Uniform(rows, RowSize(width)) ==> ImageRows(LoadedImage(width, height, rows)) == rows
  {
    SplitFlatten(Clip(rows, RowSize(width)), RowSize(width));
    if Uniform(rows, RowSize(width)) {
      ClipUniform(rows, RowSize(width));
    }
  }

  /** Byte `col` of row `row` handed to the encoder is byte (row, col) of the image. */
  lemma {:induction false} ImageRowsAt(img: Raster, row: nat, col: nat)
    requires img.Valid() && row < img.height && col < RowSize(img.width)
    ensures row < |ImageRows(img)| && col < |ImageRows(img)[row]|
    ensures ImageRows(img)[row][col] == ByteAt(img, row, col)
  {
    SplitRowsAt(img.data, RowSize(img.width), img.height, row);
  }

  /** Byte (row, col) of a loaded image is byte `col` of the decoder's row `row`. */
  lemma {:induction false} LoadedByte(width: nat, height: nat, rows: seq<seq<Byte>>, row: nat, col: nat)
    requires |rows| == height && Wide(rows, RowSize(width)) && row < height && col < RowSize(width)
    ensures col < |rows[row]|
    ensures ByteAt(LoadedImage(width, height, rows), row, col) == rows[row][col]
  {
    LoadedRows(width, height, rows);
    ImageRowsAt(LoadedImage(width, height, rows), row, col);
  }
}
