/**
 * YoloHelper.kt: post-processing of the detector's raw output tensor into
 * integer boxes: per-cell best class with a confidence threshold, removal of
 * the letterbox, greedy class-agnostic non-maximum suppression, truncation.
 */
module YoloHelper {
  import opened Common

  const InputSize: int := 640
  const NumClasses: nat := 13
  const ConfThresh: real := 0.01
  const NmsThresh: real := 0.2
  const TotalCells: nat := 8400

  /** `RectF(left, top, right, bottom)`. */
  datatype Rect = Rect(left: real, top: real, right: real, bottom: real)

  /** A decoded candidate; its label `"Class$i"` is a function of the class index and is not kept. */
  datatype Detection = Detection(classIndex: nat, score: real, box: Rect)

  /* ---------- IoU (YoloHelper.kt:43-56) ---------- */

  function Area(a: Rect): real {
    Max(0.0, a.right - a.left) * Max(0.0, a.bottom - a.top)
  }

  function Intersection(a: Rect, b: Rect): real {
    Max(0.0, Min(a.right, b.right) - Max(a.left, b.left)) * Max(0.0, Min(a.bottom, b.bottom) - Max(a.top, b.top))
  }

  lemma MulMono(w: real, h: real, bigW: real, bigH: real)
    requires 0.0 <= w <= bigW && 0.0 <= h <= bigH
    ensures 0.0 <= w * h <= bigW * bigH
  {
    assert w * h <= bigW * h;
    assert bigW * h <= bigW * bigH;
  }

  /** The overlap is no larger than either box. */
  lemma IntersectionBounds(a: Rect, b: Rect)
    ensures 0.0 <= Intersection(a, b) <= Area(a)
    ensures Intersection(a, b) <= Area(b)
  {
    var w := Max(0.0, Min(a.right, b.right) - Max(a.left, b.left));
    var h := Max(0.0, Min(a.bottom, b.bottom) - Max(a.top, b.top));
    MulMono(w, h, Max(0.0, a.right - a.left), Max(0.0, a.bottom - a.top));
    MulMono(w, h, Max(0.0, b.right - b.left), Max(0.0, b.bottom - b.top));
  }

  /** Intersection over union; 0 when the union has no positive area. */
  function Iou(a: Rect, b: Rect): (r: real)
    ensures 0.0 <= r <= 1.0
  {
    var areaA := Area(a);
    var areaB := Area(b);
    var inter := Intersection(a, b);
    IntersectionBounds(a, b);
    if areaA + areaB - inter > 0.0 then
      RatioAtMostOne(inter, areaA + areaB - inter);
      inter / (areaA + areaB - inter)
    else 0.0
  }

  lemma RatioAtMostOne(x: real, y: real)
    requires 0.0 <= x <= y && y > 0.0
    ensures 0.0 <= x / y <= 1.0
  {
    assert x / y * y == x;
  }

  /** IoU does not depend on the order of its boxes. */
  lemma IouSymmetric(a: Rect, b: Rect)
    ensures Iou(a, b) == Iou(b, a)
  {
    assert Intersection(a, b) == Intersection(b, a);
  }

  /** A box with positive area overlaps itself completely. */
  lemma IouSelf(a: Rect)
    requires a.left < a.right && a.top < a.bottom
    ensures Iou(a, a) == 1.0
  {
    assert Intersection(a, a) == Area(a);
    assert Area(a) > 0.0 by {
      MulPositive(a.right - a.left, a.bottom - a.top);
    }
  }

  lemma MulPositive(x: real, y: real)
    requires x > 0.0 && y > 0.0
    ensures x * y > 0.0
  {
  }

  /** Boxes side by side or one above the other do not overlap. */
  lemma IouDisjoint(a: Rect, b: Rect)
    requires a.right <= b.left || b.right <= a.left || a.bottom <= b.top || b.bottom <= a.top
    ensures Iou(a, b) == 0.0
  {
    var w := Max(0.0, Min(a.right, b.right) - Max(a.left, b.left));
    var h := Max(0.0, Min(a.bottom, b.bottom) - Max(a.top, b.top));
    if a.right <= b.left || b.right <= a.left {
      NoOverlap(a.left, a.right, b.left, b.right);
    } else {
      NoOverlap(a.top, a.bottom, b.top, b.bottom);
    }
    ZeroProduct(w, h);
    assert Intersection(a, b) == 0.0;
    NoIntersectionNoIou(a, b);
  }

  lemma NoIntersectionNoIou(a: Rect, b: Rect)
    requires Intersection(a, b) == 0.0
    ensures Iou(a, b) == 0.0
  {
    var d := Area(a) + Area(b) - Intersection(a, b);
    if d > 0.0 {
      assert Intersection(a, b) / d == 0.0;
    }
  }

  /** Two intervals that do not meet overlap by zero. */
  lemma NoOverlap(lo1: real, hi1: real, lo2: real, hi2: real)
    requires hi1 <= lo2 || hi2 <= lo1
    ensures Max(0.0, Min(hi1, hi2) - Max(lo1, lo2)) == 0.0
  {
  }

  lemma ZeroProduct(w: real, h: real)
    requires w == 0.0 || h == 0.0
    ensures w * h == 0.0
  {
  }

  /* ---------- per-cell decoding (YoloHelper.kt:135-157) ---------- */

  /** `maxByOrNull` over the class scores: an index and its value. */
  datatype ClassScore = ClassScore(index: nat, score: real)

  /** Kotlin's `withIndex().maxByOrNull { it.value }`: it replaces the best only on a strictly larger value. */
  function BestClass(p: seq<real>): (r: Option<ClassScore>)
    ensures r.None? <==> |p| == 0
    ensures r.Some? ==> r.value.index < |p| && p[r.value.index] == r.value.score
    ensures r.Some? ==> forall c :: 0 <= c < |p| ==> p[c] <= r.value.score
    ensures r.Some? ==> forall c :: 0 <= c < r.value.index ==> p[c] < r.value.score
    decreases |p|
  {
    if |p| == 0 then None
    else
      var prev := BestClass(p[..|p| - 1]);
      if prev.None? || prev.value.score < p[|p| - 1] then Some(ClassScore(|p| - 1, p[|p| - 1])) else prev
  }

  /** The output tensor `[4 + NUM_CLASSES][TOTAL_CELLS]`: cx, cy, w, h, then one row per class. */
  predicate HasShape(raw: seq<seq<real>>) {
    |raw| == 4 + NumClasses && forall k :: 0 <= k < |raw| ==> |raw[k]| == TotalCells
  }

  /** `FloatArray(NUM_CLASSES) { c -> raw[4 + c][i] }`. */
  function ClassScores(raw: seq<seq<real>>, i: int): (p: seq<real>)
    requires HasShape(raw) && 0 <= i < TotalCells
    ensures |p| == NumClasses
    ensures forall c :: 0 <= c < NumClasses ==> p[c] == raw[4 + c][i]
  {
    seq(NumClasses, c requires 0 <= c < NumClasses => raw[4 + c][i])
  }

  /** The letterbox geometry of an `ow x oh` bitmap fitted into the 640 x 640 input. */
  datatype Letterbox = Letterbox(scale: real, nw: int, nh: int, padX: real, padY: real, ow: real, oh: real)

  ghost predicate ValidLetterbox(lb: Letterbox) {
    lb.scale > 0.0 && lb.ow >= 0.0 && lb.oh >= 0.0
  }

  /** YoloHelper.kt:95-101: the scale that fits the larger side, and the centring pads. */
  function MakeLetterbox(width: int, height: int): (lb: Letterbox)
    requires width > 0 && height > 0
    ensures ValidLetterbox(lb) && lb.ow == width as real && lb.oh == height as real
    ensures lb.scale * lb.ow <= InputSize as real && lb.scale * lb.oh <= InputSize as real
    ensures 0.0 <= lb.padX && 0.0 <= lb.padY
    ensures lb.nw == 0 || lb.nh == 0 <==> InputSize * width < height || InputSize * height < width
  {
    var ow := width as real;
    var oh := height as real;
    var scale := Min(InputSize as real / ow, InputSize as real / oh);
    ScaledWithin(InputSize as real, ow, scale);
    ScaledWithin(InputSize as real, oh, scale);
    var nw := Trunc(ow * scale);
    var nh := Trunc(oh * scale);
    FittedSides(InputSize as real, ow, oh, scale, nw, nh);
    Letterbox(scale, nw, nh, (InputSize - nw) as real / 2.0, (InputSize - nh) as real / 2.0, ow, oh)
  }

  /**
   * YoloHelper.kt:98-104: a side of the scaled bitmap that truncates to 0 pixels makes
   * `createScaledBitmap` throw (Android requires both sizes to be positive).
   */
  predicate ScaledEmpty(width: int, height: int)
    requires width > 0 && height > 0
  {
    var lb := MakeLetterbox(width, height);
    lb.nw == 0 || lb.nh == 0
  }

  /** The letterbox sides `(ow*scale).toInt()` and `(oh*scale).toInt()`: one is 0 iff a side is more than n times the other. */
  lemma FittedSides(n: real, w: real, h: real, scale: real, nw: int, nh: int)
    requires n >= 1.0 && w > 0.0 && h > 0.0 && scale == Min(n / w, n / h)
    requires nw == Trunc(w * scale) && nh == Trunc(h * scale)
    ensures nw == 0 || nh == 0 <==> n * w < h || n * h < w
  {
    var p, q := n / w, n / h;
    if w <= h {
      DivideAntitone(n, w, h, p, q);
      assert scale == q;
      LongSideFits(n, w, h, scale);
      SidesEmpty(n, w, h, scale, nw, nh);
    } else {
      DivideAntitone(n, h, w, q, p);
      assert scale == p;
      LongSideFits(n, h, w, scale);
      SidesEmpty(n, h, w, scale, nh, nw);
    }
  }

  /** Dividing by the longer side gives the smaller scale. */
  lemma DivideAntitone(n: real, a: real, b: real, p: real, q: real)
    requires n > 0.0 && 0.0 < a <= b && p == n / a && q == n / b
    ensures q <= p
  {
    assert a * p == n && b * q == n;
    ScaleByPositive(0.0, p, a);
    ScaleByPositive(a, b, p);
    assert b * q <= b * p;
    ScaleByPositive(q, p, b);
  }

  /** Truncating the two scaled sides: only the short one can vanish, and it does iff n*a < b. */
  lemma SidesEmpty(n: real, a: real, b: real, scale: real, na: int, nb: int)
    requires n >= 1.0 && 0.0 < a <= b && b * scale == n
    requires a * scale < 1.0 <==> n * a < b
    requires na == Trunc(a * scale) && nb == Trunc(b * scale) && a * scale >= 0.0
    ensures na == 0 || nb == 0 <==> n * a < b
  {
    TruncZeroIff(a * scale);
    TruncZeroIff(b * scale);
  }

  /** With the scale n/b taken from the long side b, b fills n and a scales below one pixel iff n*a < b. */
  lemma LongSideFits(n: real, a: real, b: real, scale: real)
    requires n > 0.0 && 0.0 < a <= b && scale == n / b
    ensures b * scale == n
    ensures a * scale < 1.0 <==> n * a < b
  {
    assert b * scale == n;
    assert (a * scale) * b == n * a;
    ScaleByPositive(a * scale, 1.0, b);
  }

  lemma ScaleByPositive(x: real, y: real, c: real)
    requires c > 0.0
    ensures x < y <==> x * c < y * c
    ensures x <= y <==> x * c <= y * c
  {
  }

  lemma TruncZeroIff(x: real)
    requires x >= 0.0
    ensures Trunc(x) == 0 <==> x < 1.0
  {
  }

  /** A scale no larger than n/side keeps the scaled side within n. */
  lemma ScaledWithin(n: real, side: real, scale: real)
    requires n > 0.0 && side > 0.0 && 0.0 < scale <= n / side
    ensures side * scale <= n
  {
    var q := n / side;
    assert side * q == n;
    ScaleByPositive(scale, q, side);
  }

  /** `((v - pad) / scale).coerceIn(0f, limit)`: back to original-image pixels, clamped to the image. */
  function Unletterbox(v: real, pad: real, scale: real, limit: real): (r: real)
    requires scale > 0.0 && limit >= 0.0
    ensures 0.0 <= r <= limit
  {
    CoerceIn((v - pad) / scale, 0.0, limit)
  }

  /** The box of cell i: centre and size to corners, then de-letterboxed and clamped. */
  function CellBox(raw: seq<seq<real>>, i: int, lb: Letterbox): Rect
    requires HasShape(raw) && 0 <= i < TotalCells && ValidLetterbox(lb)
  {
    var cx, cy, w, h := raw[0][i], raw[1][i], raw[2][i], raw[3][i];
    var x1, y1, x2, y2 := cx - w / 2.0, cy - h / 2.0, cx + w / 2.0, cy + h / 2.0;
    Rect(Unletterbox(x1, lb.padX, lb.scale, lb.ow), Unletterbox(y1, lb.padY, lb.scale, lb.oh),
         Unletterbox(x2, lb.padX, lb.scale, lb.ow), Unletterbox(y2, lb.padY, lb.scale, lb.oh))
  }

  /** Every corner lies in `[0, ow] x [0, oh]`. */
  ghost predicate InImage(r: Rect, lb: Letterbox) {
    0.0 <= r.left <= lb.ow && 0.0 <= r.right <= lb.ow && 0.0 <= r.top <= lb.oh && 0.0 <= r.bottom <= lb.oh
  }

  /**
   * One iteration of the decode loop: a cell is kept exactly when some class scores at
   * least CONF_THRESH; it gets the first class with the highest score.
   */
  function DecodeCell(raw: seq<seq<real>>, i: int, lb: Letterbox): (r: Option<Detection>)
    requires HasShape(raw) && 0 <= i < TotalCells && ValidLetterbox(lb)
    ensures r.Some? <==> exists c :: 0 <= c < NumClasses && ClassScores(raw, i)[c] >= ConfThresh
    ensures r.Some? ==>
      var d := r.value;
      && d.classIndex < NumClasses
      && d.score == ClassScores(raw, i)[d.classIndex]
      && d.score >= ConfThresh
      && (forall c :: 0 <= c < NumClasses ==> ClassScores(raw, i)[c] <= d.score)
      && (forall c :: 0 <= c < d.classIndex ==> ClassScores(raw, i)[c] < d.score)
      && InImage(d.box, lb)
  {
    var best := BestClass(ClassScores(raw, i));
    if best.None? || best.value.score < ConfThresh then None
    else Some(Detection(best.value.index, best.value.score, CellBox(raw, i, lb)))
  }

  /**
   * The candidates of cells 0 .. n-1, in cell order: every confident cell
   * contributes its detection (DecodedExactly states the converse and the order).
   */
  function Decoded(raw: seq<seq<real>>, lb: Letterbox, n: nat): (dets: seq<Detection>)
    requires HasShape(raw) && n <= TotalCells && ValidLetterbox(lb)
    ensures |dets| <= n
    ensures forall i :: 0 <= i < n && DecodeCell(raw, i, lb).Some? ==> DecodeCell(raw, i, lb).value in dets
    ensures forall d :: d in dets ==> d.score >= ConfThresh && d.classIndex < NumClasses && InImage(d.box, lb)
  {
    if n == 0 then []
    else
      var cell := DecodeCell(raw, n - 1, lb);
      Decoded(raw, lb, n - 1) + (if cell.Some? then [cell.value] else [])
  }

  /** The confident cells below n, in increasing order. */
  ghost function ConfidentCells(raw: seq<seq<real>>, lb: Letterbox, n: nat): seq<nat>
    requires HasShape(raw) && n <= TotalCells && ValidLetterbox(lb)
  {
    if n == 0 then []
    else ConfidentCells(raw, lb, n - 1) + (if DecodeCell(raw, n - 1, lb).Some? then [n - 1] else [])
  }

  /**
   * `dets` lists the detections of the confident cells below n, in the order of `cells`:
   * entry k is the detection of cell `cells[k]`; the cells increase strictly, and a cell
   * below n is among them iff it clears the threshold.
   */
  ghost predicate DecodedFrom(raw: seq<seq<real>>, lb: Letterbox, n: nat, cells: seq<nat>, dets: seq<Detection>)
    requires HasShape(raw) && n <= TotalCells && ValidLetterbox(lb)
  {
    && |cells| == |dets|
    && (forall k :: 0 <= k < |cells| ==> cells[k] < n && DecodeCell(raw, cells[k], lb) == Some(dets[k]))
    && (forall k, m :: 0 <= k < m < |cells| ==> cells[k] < cells[m])
    && (forall i :: 0 <= i < n ==> (DecodeCell(raw, i, lb).Some? <==> i in cells))
  }

  /** Decoded is exactly the detections of the confident cells, in increasing cell order. */
  lemma {:induction false} DecodedExactly(raw: seq<seq<real>>, lb: Letterbox, n: nat)
    requires HasShape(raw) && n <= TotalCells && ValidLetterbox(lb)
    ensures DecodedFrom(raw, lb, n, ConfidentCells(raw, lb, n), Decoded(raw, lb, n))
  {
    if n > 0 {
      DecodedExactly(raw, lb, n - 1);
      var cells, dets := ConfidentCells(raw, lb, n - 1), Decoded(raw, lb, n - 1);
      var cell := DecodeCell(raw, n - 1, lb);
      if cell.Some? {
        assert ConfidentCells(raw, lb, n) == cells + [n - 1];
        assert Decoded(raw, lb, n) == dets + [cell.value];
        DecodedFromAppend(raw, lb, n, cells, dets);
      } else {
        assert ConfidentCells(raw, lb, n) == cells;
        assert Decoded(raw, lb, n) == dets;
        DecodedFromSkip(raw, lb, n, cells, dets);
      }
    }
  }

  lemma DecodedFromAppend(raw: seq<seq<real>>, lb: Letterbox, n: nat, cells: seq<nat>, dets: seq<Detection>)
    requires HasShape(raw) && 0 < n <= TotalCells && ValidLetterbox(lb)
    requires DecodedFrom(raw, lb, n - 1, cells, dets) && DecodeCell(raw, n - 1, lb).Some?
    ensures DecodedFrom(raw, lb, n, cells + [n - 1], dets + [DecodeCell(raw, n - 1, lb).value])
  {
  }

  lemma DecodedFromSkip(raw: seq<seq<real>>, lb: Letterbox, n: nat, cells: seq<nat>, dets: seq<Detection>)
    requires HasShape(raw) && 0 < n <= TotalCells && ValidLetterbox(lb)
    requires DecodedFrom(raw, lb, n - 1, cells, dets) && DecodeCell(raw, n - 1, lb).None?
    ensures DecodedFrom(raw, lb, n, cells, dets)
  {
  }

  /** The decode loop (YoloHelper.kt:134-157): every candidate above the threshold, in cell order. */
  method DecodeCells(raw: seq<seq<real>>, lb: Letterbox) returns (dets: seq<Detection>)
    requires HasShape(raw) && ValidLetterbox(lb)
    ensures dets == Decoded(raw, lb, TotalCells)
    ensures |dets| <= TotalCells
    ensures forall d :: d in dets ==> d.score >= ConfThresh && d.classIndex < NumClasses && InImage(d.box, lb)
  {
    dets := [];
    for i := 0 to TotalCells
      invariant dets == Decoded(raw, lb, i)
    {
      var classProbs := ClassScores(raw, i);
      var maxResult := BestClass(classProbs);
      if maxResult.Some? && maxResult.value.score >= ConfThresh {
        dets := dets + [Detection(maxResult.value.index, maxResult.value.score, CellBox(raw, i, lb))];
      }
    }
  }

  /* ---------- NMS (YoloHelper.kt:162-168) ---------- */

  ghost predicate ScoresNonIncreasing(s: seq<Detection>) {
    forall i, j :: 0 <= i < j < |s| ==> s[j].score <= s[i].score
  }

  /** No two boxes of `s` overlap by more than NMS_THRESH, in either order. */
  ghost predicate Separated(s: seq<Detection>) {
    forall i, j :: 0 <= i < |s| && 0 <= j < |s| && i != j ==> !Suppresses(s[i], s[j])
  }

  /** Puts `d` before the first element whose score is not above its own. */
  function InsertByScore(d: Detection, s: seq<Detection>): (r: seq<Detection>)
    ensures multiset(r) == multiset(s) + multiset{d}
  {
    if s == [] || s[0].score <= d.score then [d] + s
    else
      assert s == [s[0]] + s[1..];
      [s[0]] + InsertByScore(d, s[1..])
  }

  /** Inserting into a list in non-increasing score order keeps that order. */
  lemma {:induction false} InsertKeepsOrder(d: Detection, s: seq<Detection>)
    requires ScoresNonIncreasing(s)
    ensures ScoresNonIncreasing(InsertByScore(d, s))
  {
    if !(s == [] || s[0].score <= d.score) {
      assert ScoresNonIncreasing(s[1..]);
      InsertKeepsOrder(d, s[1..]);
      InsertedBelowHead(d, s);
      ConsKeepsOrder(s[0], InsertByScore(d, s[1..]));
    }
  }

  /** When `d` goes past the head, everything inserted behind the head scores no higher than it. */
  lemma InsertedBelowHead(d: Detection, s: seq<Detection>)
    requires ScoresNonIncreasing(s) && s != [] && d.score < s[0].score
    ensures forall x :: x in InsertByScore(d, s[1..]) ==> x.score <= s[0].score
  {
    forall x | x in InsertByScore(d, s[1..]) ensures x.score <= s[0].score {
      assert x in multiset(s[1..]) + multiset{d};
      if x != d {
        var k :| 0 <= k < |s[1..]| && s[1..][k] == x;
        assert s[k + 1] == x;
      }
    }
  }

  /**
   * `sortedByDescending { it.score }`: a stable sort, here an insertion sort that
   * keeps equal scores in input order.
   */
  function SortByScoreDesc(s: seq<Detection>): (r: seq<Detection>)
    ensures multiset(r) == multiset(s)
  {
    if s == [] then []
    else
      assert s == [s[0]] + s[1..];
      InsertByScore(s[0], SortByScoreDesc(s[1..]))
  }

  /** The sort's output is in non-increasing score order. */
  lemma {:induction false} SortIsOrdered(s: seq<Detection>)
    ensures ScoresNonIncreasing(SortByScoreDesc(s))
  {
    if s != [] {
      SortIsOrdered(s[1..]);
      InsertKeepsOrder(s[0], SortByScoreDesc(s[1..]));
    }
  }

  /** `iou(d.bbox, it.bbox) > NMS_THRESH`: keeping `d` removes `x`. */
  predicate Suppresses(d: Detection, x: Detection) {
    Iou(d.box, x.box) > NmsThresh
  }

  /** `removeAll { iou(d.bbox, it.bbox) > NMS_THRESH }`: the elements `d` does not suppress, in order. */
  function Survivors(d: Detection, s: seq<Detection>): (r: seq<Detection>)
    ensures |r| <= |s|
    ensures multiset(r) <= multiset(s)
    ensures forall x :: x in r <==> x in s && !Suppresses(d, x)
  {
    if s == [] then []
    else
      assert s == [s[0]] + s[1..];
      (if !Suppresses(d, s[0]) then [s[0]] else []) + Survivors(d, s[1..])
  }

  /** In a list in non-increasing score order, nothing after the head scores above it. */
  lemma HeadIsBest(s: seq<Detection>, x: Detection)
    requires ScoresNonIncreasing(s) && s != [] && x in s[1..]
    ensures x.score <= s[0].score
  {
    var k :| 0 <= k < |s[1..]| && s[1..][k] == x;
    assert s[k + 1] == x;
  }

  /** Prepending an element that scores at least as much as the whole list keeps the order. */
  lemma ConsKeepsOrder(d: Detection, s: seq<Detection>)
    requires ScoresNonIncreasing(s)
    requires forall x :: x in s ==> x.score <= d.score
    ensures ScoresNonIncreasing([d] + s)
  {
    var r := [d] + s;
    forall i, j | 0 <= i < j < |r| ensures r[j].score <= r[i].score {
      assert r[j] == s[j - 1];
      if i > 0 {
        assert r[i] == s[i - 1];
      }
    }
  }

  /** Removing elements from a list in non-increasing score order keeps that order. */
  lemma {:induction false} SurvivorsKeepOrder(d: Detection, s: seq<Detection>)
    requires ScoresNonIncreasing(s)
    ensures ScoresNonIncreasing(Survivors(d, s))
  {
    if s != [] {
      var tail := Survivors(d, s[1..]);
      assert ScoresNonIncreasing(s[1..]);
      SurvivorsKeepOrder(d, s[1..]);
      if !Suppresses(d, s[0]) {
        forall x | x in tail ensures x.score <= s[0].score {
          HeadIsBest(s, x);
        }
        ConsKeepsOrder(s[0], tail);
      }
    }
  }

  /** Greedy suppression over a list: keep the head, drop what it suppresses, repeat. */
  function Greedy(s: seq<Detection>): (r: seq<Detection>)
    ensures |r| <= |s|
    ensures multiset(r) <= multiset(s)
    decreases |s|
  {
    if s == [] then []
    else
      assert s == [s[0]] + s[1..];
      var rest := Survivors(s[0], s[1..]);
      [s[0]] + Greedy(rest)
  }

  /** NMS as a function of the decoded candidates. */
  function NmsOf(dets: seq<Detection>): seq<Detection> {
    Greedy(SortByScoreDesc(dets))
  }

  /** On a list sorted by score, the survivors come out sorted by score too. */
  lemma {:induction false} GreedyOrdered(s: seq<Detection>)
    requires ScoresNonIncreasing(s)
    ensures ScoresNonIncreasing(Greedy(s))
    decreases |s|
  {
    if s != [] {
      var rest := Survivors(s[0], s[1..]);
      assert ScoresNonIncreasing(s[1..]);
      SurvivorsKeepOrder(s[0], s[1..]);
      GreedyOrdered(rest);
      forall x | x in Greedy(rest) ensures x.score <= s[0].score {
        assert x in multiset(Greedy(rest));
        assert x in rest;
        HeadIsBest(s, x);
      }
      ConsKeepsOrder(s[0], Greedy(rest));
    }
  }

  /** Prepending a box that overlaps no element of a separated list keeps it separated. */
  lemma ConsSeparated(d: Detection, s: seq<Detection>)
    requires Separated(s)
    requires forall x :: x in s ==> !Suppresses(d, x) && !Suppresses(x, d)
    ensures Separated([d] + s)
  {
    var r := [d] + s;
    forall i, j | 0 <= i < |r| && 0 <= j < |r| && i != j ensures !Suppresses(r[i], r[j]) {
      if i == 0 {
        assert r[j] == s[j - 1];
      } else if j == 0 {
        assert r[i] == s[i - 1];
      } else {
        assert r[i] == s[i - 1] && r[j] == s[j - 1];
      }
    }
  }

  /** No survivor overlaps another by more than NMS_THRESH, whatever their classes. */
  lemma {:induction false} GreedySeparated(s: seq<Detection>)
    ensures Separated(Greedy(s))
    decreases |s|
  {
    if s != [] {
      var rest := Survivors(s[0], s[1..]);
      var g := Greedy(rest);
      GreedySeparated(rest);
      forall x | x in g ensures !Suppresses(s[0], x) && !Suppresses(x, s[0]) {
        assert x in multiset(g);
        assert x in rest;
        IouSymmetric(s[0].box, x.box);
      }
      ConsSeparated(s[0], g);
    }
  }

  /** Every candidate survives, or some survivor overlaps it by more than NMS_THRESH. */
  lemma {:induction false} GreedyCovers(s: seq<Detection>, x: Detection)
    requires x in s
    ensures x in Greedy(s) || exists k :: 0 <= k < |Greedy(s)| && Suppresses(Greedy(s)[k], x)
    decreases |s|
  {
    var r := Greedy(s);
    var rest := Survivors(s[0], s[1..]);
    assert r == [s[0]] + Greedy(rest);
    if x == s[0] {
      assert x == r[0];
    } else if Suppresses(s[0], x) {
      assert Suppresses(r[0], x);
    } else {
      assert s == [s[0]] + s[1..];
      assert x in rest;
      GreedyCovers(rest, x);
      CoveredCons(s[0], Greedy(rest), x);
    }
  }

  /** Putting a survivor in front keeps every candidate accounted for. */
  lemma CoveredCons(d: Detection, r: seq<Detection>, x: Detection)
    requires x in r || exists k :: 0 <= k < |r| && Suppresses(r[k], x)
    ensures x in [d] + r || exists k :: 0 <= k < |[d] + r| && Suppresses(([d] + r)[k], x)
  {
    if x !in r {
      var k :| 0 <= k < |r| && Suppresses(r[k], x);
      assert ([d] + r)[k + 1] == r[k];
    }
  }

  lemma {:induction false} InsertSortedHead(d: Detection, s: seq<Detection>)
    requires ScoresNonIncreasing([d] + s)
    ensures InsertByScore(d, s) == [d] + s
  {
    if s != [] {
      var r := [d] + s;
      assert r[0] == d && r[1] == s[0];
      assert r[1].score <= r[0].score;
    }
  }

  /** Sorting a list that is already in non-increasing score order changes nothing. */
  lemma {:induction false} SortSortedIsIdentity(s: seq<Detection>)
    requires ScoresNonIncreasing(s)
    ensures SortByScoreDesc(s) == s
  {
    if s != [] {
      assert ScoresNonIncreasing(s[1..]);
      SortSortedIsIdentity(s[1..]);
      assert [s[0]] + s[1..] == s;
      InsertSortedHead(s[0], s[1..]);
    }
  }

  lemma {:induction false} SurvivorsAll(d: Detection, s: seq<Detection>)
    requires forall x :: x in s ==> !Suppresses(d, x)
    ensures Survivors(d, s) == s
  {
    if s != [] {
      SurvivorsAll(d, s[1..]);
      assert s == [s[0]] + s[1..];
    }
  }

  /** The tail of a separated list is separated, and its head suppresses none of it. */
  lemma SeparatedTail(s: seq<Detection>)
    requires Separated(s) && s != []
    ensures Separated(s[1..])
    ensures forall x :: x in s[1..] ==> !Suppresses(s[0], x)
  {
    var tail := s[1..];
    forall x | x in tail ensures !Suppresses(s[0], x) {
      var j :| 0 <= j < |tail| && tail[j] == x;
      assert s[j + 1] == x;
    }
    forall i, j | 0 <= i < |tail| && 0 <= j < |tail| && i != j ensures !Suppresses(tail[i], tail[j]) {
      assert tail[i] == s[i + 1] && tail[j] == s[j + 1];
    }
  }

  /** A list whose boxes are already separated passes through suppression unchanged. */
  lemma {:induction false} GreedySeparatedIsIdentity(s: seq<Detection>)
    requires Separated(s)
    ensures Greedy(s) == s
    decreases |s|
  {
    if s != [] {
      SeparatedTail(s);
      SurvivorsAll(s[0], s[1..]);
      GreedySeparatedIsIdentity(s[1..]);
      assert s == [s[0]] + s[1..];
    }
  }

  /** Running NMS on its own output changes nothing. */
  lemma NmsIdempotent(dets: seq<Detection>)
    ensures NmsOf(NmsOf(dets)) == NmsOf(dets)
  {
    var r := NmsOf(dets);
    SortIsOrdered(dets);
    GreedyOrdered(SortByScoreDesc(dets));
    SortSortedIsIdentity(r);
    GreedySeparated(SortByScoreDesc(dets));
    GreedySeparatedIsIdentity(r);
  }

  /**
   * What NMS promises: the survivors are candidates, sorted by score, pairwise at most
   * NMS_THRESH apart in IoU, and every candidate survives or is suppressed by a survivor.
   */
  lemma NmsSpec(dets: seq<Detection>)
    ensures var r := NmsOf(dets);
      && multiset(r) <= multiset(dets)
      && ScoresNonIncreasing(r)
      && Separated(r)
      && forall x :: x in dets ==> x in r || exists k :: 0 <= k < |r| && Suppresses(r[k], x)
  {
    var all := SortByScoreDesc(dets);
    SortIsOrdered(dets);
    GreedyOrdered(all);
    GreedySeparated(all);
    forall x | x in dets
      ensures x in NmsOf(dets) || exists k :: 0 <= k < |NmsOf(dets)| && Suppresses(NmsOf(dets)[k], x)
    {
      assert x in multiset(all);
      GreedyCovers(all, x);
    }
  }

  /**
   * The NMS loop: take the best remaining candidate, keep it, remove every remaining
   * candidate it overlaps by more than NMS_THRESH. Each round removes the head, so the
   * loop ends.
   */
  method Nms(dets: seq<Detection>) returns (finalDets: seq<Detection>)
    ensures finalDets == NmsOf(dets)
    ensures multiset(finalDets) <= multiset(dets)
    ensures ScoresNonIncreasing(finalDets)
    ensures Separated(finalDets)
    ensures forall x :: x in dets ==>
      x in finalDets || exists k :: 0 <= k < |finalDets| && Suppresses(finalDets[k], x)
  {
    var sorted := SortByScoreDesc(dets);
    finalDets := GreedyLoop(sorted);
    NmsSpec(dets);
  }

  /** The `while (sorted.isNotEmpty())` loop: keep the head, remove what it suppresses, until nothing is left. */
  method GreedyLoop(candidates: seq<Detection>) returns (finalDets: seq<Detection>)
    ensures finalDets == Greedy(candidates)
  {
    var sorted := candidates;
    finalDets := [];
    while |sorted| > 0
      invariant finalDets + Greedy(sorted) == Greedy(candidates)
      decreases |sorted|
    {
      var d := sorted[0];
      GreedyStep(finalDets, sorted);
      finalDets := finalDets + [d];
      sorted := Survivors(d, sorted[1..]);
    }
    GreedyDone(finalDets, sorted);
  }

  lemma GreedyDone(kept: seq<Detection>, s: seq<Detection>)
    requires |s| == 0
    ensures kept + Greedy(s) == kept
  {
    assert Greedy(s) == [];
  }

  /** One round of the loop moves the head from the work list to the kept list. */
  lemma GreedyStep(kept: seq<Detection>, s: seq<Detection>)
    requires s != []
    ensures kept + Greedy(s) == (kept + [s[0]]) + Greedy(Survivors(s[0], s[1..]))
  {
    assert Greedy(s) == [s[0]] + Greedy(Survivors(s[0], s[1..]));
  }

  /* ---------- Int conversion and the whole detect() ---------- */

  /** `listOf(left.toInt(), top.toInt(), right.toInt(), bottom.toInt())`. */
  function ToIntBox(r: Rect): seq<int> {
    [Trunc(r.left), Trunc(r.top), Trunc(r.right), Trunc(r.bottom)]
  }

  function IntBoxes(dets: seq<Detection>): (r: seq<seq<int>>)
    ensures |r| == |dets|
    ensures forall k :: 0 <= k < |r| ==> r[k] == ToIntBox(dets[k].box)
  {
    seq(|dets|, k requires 0 <= k < |dets| => ToIntBox(dets[k].box))
  }

  /** Boxes clamped to a `width x height` image convert to integer corners inside it. */
  lemma IntBoxesInImage(dets: seq<Detection>, lb: Letterbox, width: int, height: int)
    requires lb.ow == width as real && lb.oh == height as real
    requires forall d :: d in dets ==> InImage(d.box, lb)
    ensures forall b :: b in IntBoxes(dets) ==>
      |b| == 4 && 0 <= b[0] <= width && 0 <= b[1] <= height && 0 <= b[2] <= width && 0 <= b[3] <= height
  {
    forall b | b in IntBoxes(dets)
      ensures |b| == 4 && 0 <= b[0] <= width && 0 <= b[1] <= height && 0 <= b[2] <= width && 0 <= b[3] <= height
    {
      var k :| 0 <= k < |dets| && IntBoxes(dets)[k] == b;
      assert dets[k] in dets;
    }
  }

  /** A 1 x 1000 frame scales to 0 x 640, so detect() returns an empty list. */
  lemma NarrowFrameScalesToNothing()
    ensures MakeLetterbox(1, 1000).nw == 0 && MakeLetterbox(1, 1000).nh == 640
    ensures ScaledEmpty(1, 1000)
  {
  }

  /**
   * detect(): letterbox, inference, decode, NMS, truncate to Int. A bitmap side that
   * scales to 0 pixels, or a tensor of the wrong shape, throws, and the catch block
   * returns an empty list.
   */
  method Detect(raw: seq<seq<real>>, width: int, height: int) returns (boxes: seq<seq<int>>)
    requires width > 0 && height > 0
    ensures ScaledEmpty(width, height) || !HasShape(raw) ==> boxes == []
    ensures !ScaledEmpty(width, height) && HasShape(raw) ==>
      boxes == IntBoxes(NmsOf(Decoded(raw, MakeLetterbox(width, height), TotalCells)))
    ensures |boxes| <= TotalCells
    ensures forall b :: b in boxes ==>
      |b| == 4 && 0 <= b[0] <= width && 0 <= b[1] <= height && 0 <= b[2] <= width && 0 <= b[3] <= height
  {
    if ScaledEmpty(width, height) || !HasShape(raw) {
      return [];
    }
    var lb := MakeLetterbox(width, height);
    var dets := DecodeCells(raw, lb);
    var finalDets := Nms(dets);
    forall d | d in finalDets ensures InImage(d.box, lb) {
      assert d in multiset(dets);
    }
    IntBoxesInImage(finalDets, lb, width, height);
    boxes := IntBoxes(finalDets);
  }

  /** Every confident cell's detection survives NMS or is suppressed by a survivor. */
  lemma ConfidentCellCovered(raw: seq<seq<real>>, lb: Letterbox, i: nat)
    requires HasShape(raw) && ValidLetterbox(lb) && i < TotalCells && DecodeCell(raw, i, lb).Some?
    ensures var x, r := DecodeCell(raw, i, lb).value, NmsOf(Decoded(raw, lb, TotalCells));
      x in r || exists k :: 0 <= k < |r| && Suppresses(r[k], x)
  {
    NmsSpec(Decoded(raw, lb, TotalCells));
  }

  /* ---------- one confident cell ---------- */

  lemma {:induction false} DecodedOneCell(raw: seq<seq<real>>, lb: Letterbox, i0: nat, n: nat)
    requires HasShape(raw) && ValidLetterbox(lb) && i0 < TotalCells && n <= TotalCells
    requires DecodeCell(raw, i0, lb).Some?
    requires forall i :: 0 <= i < TotalCells && i != i0 ==> DecodeCell(raw, i, lb).None?
    ensures Decoded(raw, lb, n) == if i0 < n then [DecodeCell(raw, i0, lb).value] else []
  {
    if n > 0 {
      DecodedOneCell(raw, lb, i0, n - 1);
    }
  }

  /**
   * When a single cell has a class score at the threshold or above, detection ends
   * with exactly one box.
   */
  lemma OneConfidentCell(raw: seq<seq<real>>, lb: Letterbox, i0: nat)
    requires HasShape(raw) && ValidLetterbox(lb) && i0 < TotalCells
    requires exists c :: 0 <= c < NumClasses && ClassScores(raw, i0)[c] >= ConfThresh
    requires forall i, c :: 0 <= i < TotalCells && i != i0 && 0 <= c < NumClasses ==> ClassScores(raw, i)[c] < ConfThresh
    ensures |NmsOf(Decoded(raw, lb, TotalCells))| == 1
  {
    DecodedOneCell(raw, lb, i0, TotalCells);
    var d := DecodeCell(raw, i0, lb).value;
    assert Decoded(raw, lb, TotalCells) == [d];
    assert SortByScoreDesc([d]) == [d];
  }
}
