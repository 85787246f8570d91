/**
 * GLPDepthHelper.kt: the metric rescaling of the GLP-depth output that reaches
 * the safety check, and the grey-level picture drawn from the raw output.
 */
module GlpDepth {
  import opened Common

  /** A rectangular map with at least one row, as the model's `[h][w]` output always is. */
  ghost predicate Rectangular(m: seq<seq<real>>) {
    |m| > 0 && IsShape(m, |m|, |m[0]|)
  }

  /**
   * detect: every raw cell times 2 and divided by 8. The comment above the loop
   * speaks of a 5/8 factor; the code multiplies by 2/8, a quarter.
   */
  function Scale(raw: seq<seq<real>>): (s: seq<seq<real>>)
    requires Rectangular(raw)
    ensures IsShape(s, |raw|, |raw[0]|)
    ensures forall y, x :: 0 <= y < |raw| && 0 <= x < |raw[0]| ==> 4.0 * s[y][x] == raw[y][x]
  {
    var w := |raw[0]|;
    seq(|raw|, y requires 0 <= y < |raw| => seq(w, x requires 0 <= x < w => raw[y][x] * 2.0 / 8.0))
  }

  /** Scaling keeps the order between any two cells, in both directions. */
  lemma ScaleKeepsOrder(raw: seq<seq<real>>, y1: int, x1: int, y2: int, x2: int)
    requires Rectangular(raw)
    requires 0 <= y1 < |raw| && 0 <= x1 < |raw[0]| && 0 <= y2 < |raw| && 0 <= x2 < |raw[0]|
    ensures raw[y1][x1] < raw[y2][x2] <==> Scale(raw)[y1][x1] < Scale(raw)[y2][x2]
    ensures raw[y1][x1] == raw[y2][x2] <==> Scale(raw)[y1][x1] == Scale(raw)[y2][x2]
  {
    var s := Scale(raw);
    assert 4.0 * s[y1][x1] == raw[y1][x1] && 4.0 * s[y2][x2] == raw[y2][x2];
  }

  /** The nearest pixel of the raw output is still the nearest after scaling. */
  lemma ScaleKeepsNearest(raw: seq<seq<real>>, y0: int, x0: int)
    requires Rectangular(raw)
    requires 0 <= y0 < |raw| && 0 <= x0 < |raw[0]|
    requires forall y, x :: 0 <= y < |raw| && 0 <= x < |raw[0]| ==> raw[y0][x0] <= raw[y][x]
    ensures forall y, x :: 0 <= y < |raw| && 0 <= x < |raw[0]| ==> Scale(raw)[y0][x0] <= Scale(raw)[y][x]
  {
    forall y, x | 0 <= y < |raw| && 0 <= x < |raw[0]|
      ensures Scale(raw)[y0][x0] <= Scale(raw)[y][x]
    {
      ScaleKeepsOrder(raw, y0, x0, y, x);
    }
  }

  /** `output.flatMap { row -> row.toList() }`: the rows one after another. */
  function Flatten(m: seq<seq<real>>): (all: seq<real>)
    ensures |m| == 0 ==> all == []
  {
    if |m| == 0 then [] else m[0] + Flatten(m[1..])
  }

  /** Every cell of the map occurs in the flattened list, and nothing else does. */
  lemma {:induction false} FlattenMembers(m: seq<seq<real>>, v: real)
    ensures v in Flatten(m) <==> exists y, x :: 0 <= y < |m| && 0 <= x < |m[y]| && m[y][x] == v
  {
    if |m| > 0 {
      FlattenMembers(m[1..], v);
      if v in Flatten(m[1..]) {
        var y, x :| 0 <= y < |m[1..]| && 0 <= x < |m[1..][y]| && m[1..][y][x] == v;
        assert m[y + 1][x] == v;
      }
      if exists y, x :: 0 <= y < |m| && 0 <= x < |m[y]| && m[y][x] == v {
        var y, x :| 0 <= y < |m| && 0 <= x < |m[y]| && m[y][x] == v;
        if y > 0 {
          assert m[1..][y - 1][x] == v;
        } else {
          assert m[0][x] == v;
        }
      }
    }
  }

  /** Kotlin `maxOrNull()`: the greatest value, or null for an empty list. */
  function MaxOrNull(vals: seq<real>): (r: Option<real>)
    ensures r.None? <==> |vals| == 0
    ensures r.Some? ==> r.value in vals && forall v :: v in vals ==> v <= r.value
  {
    if |vals| == 0 then None
    else
      var rest := MaxOrNull(vals[1..]);
      assert forall v :: v in vals ==> v == vals[0] || v in vals[1..];
      if rest.None? || rest.value <= vals[0] then Some(vals[0]) else rest
  }

  /** Kotlin `minOrNull()`: the least value, or null for an empty list. */
  function MinOrNull(vals: seq<real>): (r: Option<real>)
    ensures r.None? <==> |vals| == 0
    ensures r.Some? ==> r.value in vals && forall v :: v in vals ==> r.value <= v
  {
    if |vals| == 0 then None
    else
      var rest := MinOrNull(vals[1..]);
      assert forall v :: v in vals ==> v == vals[0] || v in vals[1..];
      if rest.None? || vals[0] <= rest.value then Some(vals[0]) else rest
  }

  /** `max` of postprocess: the greatest cell, 1 when there is none. */
  function High(m: seq<seq<real>>): real {
    var r := MaxOrNull(Flatten(m));
    if r.Some? then r.value else 1.0
  }

  /** `min` of postprocess: the least cell, 0 when there is none. */
  function Low(m: seq<seq<real>>): real {
    var r := MinOrNull(Flatten(m));
    if r.Some? then r.value else 0.0
  }

  /** Every cell lies between Low and High. */
  lemma CellBetween(m: seq<seq<real>>, y: int, x: int)
    requires 0 <= y < |m| && 0 <= x < |m[y]|
    ensures Low(m) <= m[y][x] <= High(m)
  {
    FlattenMembers(m, m[y][x]);
  }

  /** Kotlin `Int.MAX_VALUE` and `Int.MIN_VALUE`, where `Float.toInt()` saturates. */
  const IntMax: int := 0x7fff_ffff
  const IntMin: int := -0x8000_0000

  /**
   * `((v - min) / (max - min) * 255).toInt()`. When the span is zero the float
   * quotient is NaN (for `v == min`), which converts to 0, or an infinity, which
   * saturates to the Int bounds.
   */
  function Grey(v: real, lo: real, hi: real): int {
    if hi == lo then
      (if v == lo then 0 else if v > lo then IntMax else IntMin)
    else
      Trunc((v - lo) / (hi - lo) * 255.0)
  }

  /** A value between the bounds gets a grey level in 0..255; the least maps to 0 and, unless the span is empty, the greatest to 255. */
  lemma GreyRange(v: real, lo: real, hi: real)
    requires lo <= v <= hi
    ensures 0 <= Grey(v, lo, hi) <= 255
    ensures v == lo ==> Grey(v, lo, hi) == 0
    ensures v == hi && lo < hi ==> Grey(v, lo, hi) == 255
  {
    if hi != lo {
      var q := (v - lo) / (hi - lo);
      assert q * (hi - lo) == v - lo;
      Fraction(v - lo, hi - lo);
      if v == hi {
        SelfQuotient(hi - lo);
        assert q == (hi - lo) / (hi - lo);
      }
    }
  }

  lemma SelfQuotient(d: real)
    requires d != 0.0
    ensures d / d == 1.0
  {
  }

  lemma Fraction(a: real, b: real)
    requires 0.0 <= a <= b && b > 0.0
    ensures 0.0 <= a / b <= 1.0
  {
  }

  /** A brighter pixel stands for a larger raw value: the grey level never decreases with the value. */
  lemma GreyMonotone(v1: real, v2: real, lo: real, hi: real)
    requires lo <= v1 <= v2 <= hi
    ensures Grey(v1, lo, hi) <= Grey(v2, lo, hi)
  {
    if hi != lo {
      var d := hi - lo;
      assert (v1 - lo) / d <= (v2 - lo) / d by {
        DivideMonotone(v1 - lo, v2 - lo, d);
      }
      Fraction(v1 - lo, d);
      Fraction(v2 - lo, d);
      TruncMonotone((v1 - lo) / d * 255.0, (v2 - lo) / d * 255.0);
    }
  }

  lemma DivideMonotone(a: real, b: real, d: real)
    requires a <= b && d > 0.0
    ensures a / d <= b / d
  {
    assert b / d - a / d == (b - a) / d;
  }

  lemma TruncMonotone(r1: real, r2: real)
    requires 0.0 <= r1 <= r2
    ensures Trunc(r1) <= Trunc(r2)
  {
  }

  /**
   * postprocess: a w-by-h bitmap whose pixel (x, y) holds the grey level of
   * `output[y][x]` between the map's least and greatest cell; the bitmap is
   * modelled as an array indexed `[y, x]` holding the common channel value.
   */
  method Postprocess(output: seq<seq<real>>) returns (bmp: array2<int>)
    requires Rectangular(output)
    ensures fresh(bmp)
    ensures bmp.Length0 == |output| && bmp.Length1 == |output[0]|
    ensures forall y, x :: 0 <= y < |output| && 0 <= x < |output[0]| ==>
      bmp[y, x] == Grey(output[y][x], Low(output), High(output))
  {
    var h := |output|;
    var w := |output[0]|;
    bmp := new int[h, w];
    var allValues := Flatten(output);
    var maxValue := MaxOrNull(allValues);
    var hi := if maxValue.Some? then maxValue.value else 1.0;
    var minValue := MinOrNull(allValues);
    var lo := if minValue.Some? then minValue.value else 0.0;
    for y := 0 to h
      invariant forall i, j :: 0 <= i < y && 0 <= j < w ==> bmp[i, j] == Grey(output[i][j], lo, hi)
    {
      for x := 0 to w
        invariant forall i, j :: 0 <= i < y && 0 <= j < w ==> bmp[i, j] == Grey(output[i][j], lo, hi)
        invariant forall j :: 0 <= j < x ==> bmp[y, j] == Grey(output[y][j], lo, hi)
      {
        bmp[y, x] := Grey(output[y][x], lo, hi);
      }
    }
  }

  /** Every pixel of the picture is a valid colour channel value, 0..255. */
  lemma PictureInRange(output: seq<seq<real>>, y: int, x: int)
    requires Rectangular(output)
    requires 0 <= y < |output| && 0 <= x < |output[0]|
    ensures 0 <= Grey(output[y][x], Low(output), High(output)) <= 255
  {
    CellBetween(output, y, x);
    GreyRange(output[y][x], Low(output), High(output));
  }

  /** The farthest cell is drawn white (255) and the nearest black (0), unless all cells are equal. */
  lemma PictureExtremes(output: seq<seq<real>>, y: int, x: int)
    requires Rectangular(output)
    requires 0 <= y < |output| && 0 <= x < |output[0]|
    ensures output[y][x] == High(output) && Low(output) < High(output) ==>
      Grey(output[y][x], Low(output), High(output)) == 255
    ensures output[y][x] == Low(output) ==> Grey(output[y][x], Low(output), High(output)) == 0
  {
    CellBetween(output, y, x);
    GreyRange(output[y][x], Low(output), High(output));
  }
}
