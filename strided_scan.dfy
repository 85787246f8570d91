/**
 * The strided grid scan that dist_Cal and isSafe both run over a box: rows
 * `y1 until y2 step g`, in each row columns `x1 until x2 step g`, keeping the
 * smallest depth among the visited pixels that qualify.
 */
module StridedScan {
  import opened Common

  /** Which visited pixels take part: all of them (dist_Cal), or those nearer than the safe map (isSafe). */
  datatype Filter = AnyPixel | CloserThan(safe: seq<seq<Dist>>)

  /** The positions of Kotlin's `a until e step g`: a, a + g, a + 2g, ... below e. */
  function Steps(a: int, e: int, g: int): (s: set<int>)
    requires g > 0
    ensures forall k :: k in s ==> a <= k < e
    ensures s == {} <==> e <= a
    decreases e - a
  {
    if a >= e then {} else {a} + Steps(a + g, e, g)
  }

  /** The progression holds exactly the positions at a multiple of `g` from its start. */
  lemma {:induction false} StepsAre(a: int, e: int, g: int, k: int)
    requires g > 0
    ensures k in Steps(a, e, g) <==> a <= k < e && (k - a) % g == 0
    decreases e - a
  {
    if a < e {
      StepsAre(a + g, e, g, k);
      if k != a && a <= k {
        ModShift(k - a - g, g);
      }
      if a <= k < a + g {
        assert 0 <= k - a < g;
      }
    }
  }

  /** Shifting by the divisor does not change the remainder. */
  lemma ModShift(x: int, g: int)
    requires g > 0
    ensures (x + g) % g == x % g
  {
    var q, r := x / g, x % g;
    var q2, r2 := (x + g) / g, (x + g) % g;
    assert x == g * q + r && 0 <= r < g;
    assert x + g == g * q2 + r2 && 0 <= r2 < g;
    var k := q2 - q - 1;
    assert g * k == r - r2 by {
      assert g * q2 + r2 == g * q + g + r;
      assert g * k == g * q2 - g * q - g;
    }
  }

  /** The depth map is a non-empty rectangle and the safe map, when there is one, has its shape. */
  ghost predicate Fits(depth: seq<seq<real>>, f: Filter) {
    && |depth| > 0
    && IsShape(depth, |depth|, |depth[0]|)
    && (f.CloserThan? ==> IsShape(f.safe, |depth|, |depth[0]|))
  }

  /** A box whose grid visits any pixel lies inside the map (the source indexes without checks). */
  ghost predicate Inside(depth: seq<seq<real>>, b: Box)
    requires |depth| > 0
  {
    b.y1 < b.y2 && b.x1 < b.x2 ==> 0 <= b.y1 && b.y2 <= |depth| && 0 <= b.x1 && b.x2 <= |depth[0]|
  }

  /** Whether pixel (i, j) counts: always, or only when its depth is strictly below the safe map there. */
  predicate Qualifies(depth: seq<seq<real>>, f: Filter, i: int, j: int)
    requires Fits(depth, f) && 0 <= i < |depth| && 0 <= j < |depth[0]|
  {
    match f
    case AnyPixel => true
    case CloserThan(safe) => Below(depth[i][j], safe[i][j])
  }

  /** One step of the inner loop: take d = depth[i][j] when it qualifies and beats the running minimum. */
  function Update(acc: Option<real>, depth: seq<seq<real>>, f: Filter, i: int, j: int): Option<real>
    requires Fits(depth, f) && 0 <= i < |depth| && 0 <= j < |depth[0]|
  {
    var d := depth[i][j];
    if Qualifies(depth, f, i, j) && (acc.None? || d < acc.value) then Some(d) else acc
  }

  /** The inner loop over row i from column j on, starting from the running minimum `acc`. */
  function ScanRow(depth: seq<seq<real>>, f: Filter, b: Box, g: int, i: int, j: int, acc: Option<real>): Option<real>
    requires g > 0 && Fits(depth, f) && Inside(depth, b)
    requires b.y1 <= i < b.y2 && b.x1 <= j
    decreases b.x2 - j
  {
    if j >= b.x2 then acc else ScanRow(depth, f, b, g, i, j + g, Update(acc, depth, f, i, j))
  }

  /** The outer loop from row i on, starting from the running minimum `acc`. */
  function ScanRows(depth: seq<seq<real>>, f: Filter, b: Box, g: int, i: int, acc: Option<real>): Option<real>
    requires g > 0 && Fits(depth, f) && Inside(depth, b)
    requires b.y1 <= i
    decreases b.y2 - i
  {
    if i >= b.y2 then acc else ScanRows(depth, f, b, g, i + g, ScanRow(depth, f, b, g, i, b.x1, acc))
  }

  /** What the two nested loops leave in the running minimum, which starts out null. */
  function BoxMin(depth: seq<seq<real>>, f: Filter, b: Box, g: int): Option<real>
    requires g > 0 && Fits(depth, f) && Inside(depth, b)
  {
    ScanRows(depth, f, b, g, b.y1, None)
  }

  /** The qualifying depths of row i at the columns j, j + g, ... below x2. */
  ghost function RowReadings(depth: seq<seq<real>>, f: Filter, b: Box, g: int, i: int, j: int): set<real>
    requires g > 0 && Fits(depth, f) && Inside(depth, b)
    requires b.y1 <= i < b.y2 && b.x1 <= j
  {
    set c | c in Steps(j, b.x2, g) && Qualifies(depth, f, i, c) :: depth[i][c]
  }

  /** The qualifying depths of the visited pixels in rows i, i + g, ... below y2. */
  ghost function RowsReadings(depth: seq<seq<real>>, f: Filter, b: Box, g: int, i: int): set<real>
    requires g > 0 && Fits(depth, f) && Inside(depth, b)
    requires b.y1 <= i
  {
    set r, c | r in Steps(i, b.y2, g) && c in Steps(b.x1, b.x2, g) && Qualifies(depth, f, r, c) :: depth[r][c]
  }

  /** The depths at the visited pixels `(y1 + k*g, x1 + m*g)` of the box that qualify. */
  ghost function Readings(depth: seq<seq<real>>, f: Filter, b: Box, g: int): set<real>
    requires g > 0 && Fits(depth, f) && Inside(depth, b)
  {
    RowsReadings(depth, f, b, g, b.y1)
  }

  lemma {:induction false} ScanRowLeast(depth: seq<seq<real>>, f: Filter, b: Box, g: int, i: int, j: int,
                                        acc: Option<real>, seen: set<real>)
    requires g > 0 && Fits(depth, f) && Inside(depth, b)
    requires b.y1 <= i < b.y2 && b.x1 <= j
    requires IsLeast(acc, seen)
    ensures IsLeast(ScanRow(depth, f, b, g, i, j, acc), seen + RowReadings(depth, f, b, g, i, j))
    decreases b.x2 - j
  {
    if j >= b.x2 {
      assert RowReadings(depth, f, b, g, i, j) == {};
    } else {
      var here: set<real> := if Qualifies(depth, f, i, j) then {depth[i][j]} else {};
      var acc' := Update(acc, depth, f, i, j);
      assert IsLeast(acc', seen + here);
      ScanRowLeast(depth, f, b, g, i, j + g, acc', seen + here);
      assert RowReadings(depth, f, b, g, i, j) == here + RowReadings(depth, f, b, g, i, j + g);
    }
  }

  lemma {:induction false} ScanRowsLeast(depth: seq<seq<real>>, f: Filter, b: Box, g: int, i: int,
                                         acc: Option<real>, seen: set<real>)
    requires g > 0 && Fits(depth, f) && Inside(depth, b)
    requires b.y1 <= i
    requires IsLeast(acc, seen)
    ensures IsLeast(ScanRows(depth, f, b, g, i, acc), seen + RowsReadings(depth, f, b, g, i))
    decreases b.y2 - i
  {
    if i >= b.y2 {
      assert RowsReadings(depth, f, b, g, i) == {};
    } else {
      var row := RowReadings(depth, f, b, g, i, b.x1);
      ScanRowLeast(depth, f, b, g, i, b.x1, acc, seen);
      ScanRowsLeast(depth, f, b, g, i + g, ScanRow(depth, f, b, g, i, b.x1, acc), seen + row);
      assert RowsReadings(depth, f, b, g, i) == row + RowsReadings(depth, f, b, g, i + g);
    }
  }

  /** The scan yields the least qualifying reading, and null exactly when no visited pixel qualifies. */
  lemma BoxMinLeast(depth: seq<seq<real>>, f: Filter, b: Box, g: int)
    requires g > 0 && Fits(depth, f) && Inside(depth, b)
    ensures IsLeast(BoxMin(depth, f, b, g), Readings(depth, f, b, g))
  {
    ScanRowsLeast(depth, f, b, g, b.y1, None, {});
  }

  /** Without a filter, some pixel is read exactly when the box is non-empty in both directions. */
  lemma AnyPixelReadings(depth: seq<seq<real>>, b: Box, g: int)
    requires g > 0 && Fits(depth, AnyPixel) && Inside(depth, b)
    ensures Readings(depth, AnyPixel, b, g) == {} <==> b.y1 >= b.y2 || b.x1 >= b.x2
  {
    if b.y1 < b.y2 && b.x1 < b.x2 {
      assert b.y1 in Steps(b.y1, b.y2, g) && b.x1 in Steps(b.x1, b.x2, g);
      assert depth[b.y1][b.x1] in Readings(depth, AnyPixel, b, g);
    }
  }

  /**
   * The two nested loops of dist_Cal.kt:12-19 and safe_cal.kt:15-22: the result is
   * the least depth among the visited pixels that qualify, or null when none does.
   */
  method ScanMin(depth: seq<seq<real>>, f: Filter, b: Box, g: int) returns (minDist: Option<real>)
    requires g > 0 && Fits(depth, f) && Inside(depth, b)
    ensures minDist == BoxMin(depth, f, b, g)
    ensures IsLeast(minDist, Readings(depth, f, b, g))
  {
    minDist := None;
    var i := b.y1;
    while i < b.y2
      invariant b.y1 <= i
      invariant ScanRows(depth, f, b, g, i, minDist) == BoxMin(depth, f, b, g)
      decreases b.y2 - i
    {
      var j := b.x1;
      while j < b.x2
        invariant b.x1 <= j
        invariant ScanRows(depth, f, b, g, i + g, ScanRow(depth, f, b, g, i, j, minDist)) == BoxMin(depth, f, b, g)
        decreases b.x2 - j
      {
        var d := depth[i][j];
        if Qualifies(depth, f, i, j) && (minDist.None? || d < minDist.value) {
          minDist := Some(d);
        }
        j := j + g;
      }
      i := i + g;
    }
    BoxMinLeast(depth, f, b, g);
  }
}
