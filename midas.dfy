/**
 * MidasHelper.kt: nearest-neighbour resampling of the 256-by-256 MiDaS output,
 * read from the interpreter as one flat row-major list, into an
 * `outputSize`-by-`outputSize` grid.
 */
module Midas {
  import opened Common

  /** The model's fixed input and output side, in pixels. */
  const Side: int := 256

  /**
   * `y * 256 / outputSize`: the source row (or column) sampled for output row
   * `i`, the largest index whose scaled position does not pass `i`.
   */
  function SourceIndex(i: int, outputSize: int): (k: int)
    requires 0 <= i < outputSize
    ensures 0 <= k < Side
    ensures k * outputSize <= i * Side < (k + 1) * outputSize
  {
    DivBounds(i * Side, outputSize);
    assert (i * Side / outputSize) * outputSize < outputSize * Side by {
      assert i * Side < outputSize * Side;
    }
    i * Side / outputSize
  }

  /** estimateDepth's array initialiser: cell `[y][x]` is `raw[yy * 256 + xx]`. */
  function Resample(raw: seq<real>, outputSize: nat): (m: seq<seq<real>>)
    requires |raw| == Side * Side
    ensures IsShape(m, outputSize, outputSize)
  {
    seq(outputSize, y requires 0 <= y < outputSize =>
      seq(outputSize, x requires 0 <= x < outputSize =>
        raw[FlatIndex(SourceIndex(y, outputSize), SourceIndex(x, outputSize))]))
  }

  /** Row-major position of source pixel (row, column) in the flat output. */
  function FlatIndex(row: int, col: int): (k: int)
    requires 0 <= row < Side && 0 <= col < Side
    ensures 0 <= k < Side * Side
  {
    row * Side + col
  }

  /** Every resampled cell is the raw value at the sampled pixel, which lies inside the 256-by-256 output. */
  lemma ResampleCell(raw: seq<real>, outputSize: nat, y: int, x: int)
    requires |raw| == Side * Side
    requires 0 <= y < outputSize && 0 <= x < outputSize
    ensures var yy, xx := SourceIndex(y, outputSize), SourceIndex(x, outputSize);
      0 <= yy < Side && 0 <= xx < Side && 0 <= yy * Side + xx < |raw| &&
      Resample(raw, outputSize)[y][x] == raw[yy * Side + xx]
  {
  }

  /** At the model's own size the resampling is exactly the flat output reshaped. */
  lemma {:induction false} IdentityAtModelSize(raw: seq<real>, y: int, x: int)
    requires |raw| == Side * Side
    requires 0 <= y < Side && 0 <= x < Side
    ensures Resample(raw, Side)[y][x] == raw[y * Side + x]
  {
    SameIndex(y);
    SameIndex(x);
  }

  lemma SameIndex(i: int)
    requires 0 <= i < Side
    ensures SourceIndex(i, Side) == i
  {
    var k := SourceIndex(i, Side);
    assert k * Side <= i * Side < (k + 1) * Side;
  }

  /** A later output row (or column) never samples an earlier source row (or column). */
  lemma {:induction false} SourceIndexMonotone(i: int, j: int, outputSize: int)
    requires 0 <= i <= j < outputSize
    ensures SourceIndex(i, outputSize) <= SourceIndex(j, outputSize)
  {
    var ki, kj := SourceIndex(i, outputSize), SourceIndex(j, outputSize);
    assert ki * outputSize <= i * Side <= j * Side < (kj + 1) * outputSize;
    ProductOrder(ki, kj + 1, outputSize);
  }

  lemma ProductOrder(a: int, b: int, c: int)
    requires c > 0 && a * c < b * c
    ensures a < b
  {
    assert (b - a) * c > 0;
  }

  /** Halving the size samples every other pixel: output `[y][x]` of a 128 grid is source pixel `(2y, 2x)`. */
  lemma HalfSize(raw: seq<real>, y: int, x: int)
    requires |raw| == Side * Side
    requires 0 <= y < 128 && 0 <= x < 128
    ensures Resample(raw, 128)[y][x] == raw[(2 * y) * Side + 2 * x]
  {
    HalfIndex(y);
    HalfIndex(x);
  }

  lemma HalfIndex(i: int)
    requires 0 <= i < 128
    ensures SourceIndex(i, 128) == 2 * i
  {
    var k := SourceIndex(i, 128);
    assert k * 128 <= i * Side < (k + 1) * 128;
  }
}
