/** bbox_resizing.kt: moving integer boxes between two square resolutions. */
module BBoxResizing {
  import opened Common

  /** One coordinate: `(coord * (targetSize / originalSize)).toInt()`. */
  function ResizeCoord(coord: int, originalSize: int, targetSize: int): int
    requires originalSize > 0
  {
    Trunc(coord as real * (targetSize as real / originalSize as real))
  }

  /** resizeBBoxes: every coordinate of every box rescaled, the list and box shapes kept. */
  function ResizeBBoxes(bboxes: seq<seq<int>>, originalSize: int, targetSize: int): (r: seq<seq<int>>)
    requires originalSize > 0
    ensures |r| == |bboxes|
    ensures forall k :: 0 <= k < |r| ==> |r[k]| == |bboxes[k]|
    ensures forall k, i :: 0 <= k < |r| && 0 <= i < |r[k]| ==> r[k][i] == ResizeCoord(bboxes[k][i], originalSize, targetSize)
  {
    seq(|bboxes|, k requires 0 <= k < |bboxes| =>
      seq(|bboxes[k]|, i requires 0 <= i < |bboxes[k]| => ResizeCoord(bboxes[k][i], originalSize, targetSize)))
  }

  /** Each coordinate is the scaled value truncated toward zero: within one pixel of it, on the zero side. */
  lemma ResizeCoordTruncates(coord: int, originalSize: int, targetSize: int)
    requires originalSize > 0
    ensures var exact := coord as real * targetSize as real / originalSize as real;
      var c := ResizeCoord(coord, originalSize, targetSize);
      && (exact >= 0.0 ==> 0 <= c && c as real <= exact < c as real + 1.0)
      && (exact < 0.0 ==> c <= 0 && c as real - 1.0 < exact <= c as real)
  {
    var exact := coord as real * targetSize as real / originalSize as real;
    assert coord as real * (targetSize as real / originalSize as real) == exact;
  }

  /** Resizing to the same resolution returns every box unchanged. */
  lemma SameSizeIsIdentity(bboxes: seq<seq<int>>, size: int)
    requires size > 0
    ensures ResizeBBoxes(bboxes, size, size) == bboxes
  {
    var r := ResizeBBoxes(bboxes, size, size);
    forall k | 0 <= k < |r| ensures r[k] == bboxes[k] {
      forall i | 0 <= i < |r[k]| ensures r[k][i] == bboxes[k][i] {
        assert size as real / size as real == 1.0;
      }
    }
  }

  /** 640 to 320 halves every non-negative coordinate with integer division. */
  lemma HalvingFrom640To320(c: int)
    requires c >= 0
    ensures ResizeCoord(c, 640, 320) == c / 2
  {
    assert 320 as real / 640 as real == 0.5;
    var q := c / 2;
    assert c == 2 * q || c == 2 * q + 1;
  }

  /** Truncation goes toward zero, not down: -3 at half scale becomes -1. */
  lemma NegativeTruncatesTowardZero()
    ensures ResizeCoord(-3, 640, 320) == -1
  {
    assert 320 as real / 640 as real == 0.5;
  }

  /** Scaling down keeps non-negative coordinates non-negative and never increases them. */
  lemma ShrinkingNeverGrows(c: int, originalSize: int, targetSize: int)
    requires originalSize > 0 && 0 <= targetSize <= originalSize && c >= 0
    ensures 0 <= ResizeCoord(c, originalSize, targetSize) <= c
  {
    var s := targetSize as real / originalSize as real;
    assert 0.0 <= s <= 1.0;
    assert c as real * s <= c as real * 1.0;
  }

  /** The example run by the file's `main`: two boxes from 640 to 384. */
  lemma MainExample()
    ensures ResizeBBoxes([[50, 60, 200, 220], [30, 40, 100, 120]], 640, 384)
         == [[30, 36, 120, 132], [18, 24, 60, 72]]
  {
    var r := ResizeBBoxes([[50, 60, 200, 220], [30, 40, 100, 120]], 640, 384);
    assert 384 as real / 640 as real == 0.6;
    assert r[0] == [30, 36, 120, 132];
    assert r[1] == [18, 24, 60, 72];
  }
}
