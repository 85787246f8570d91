/**
 * Value types and Kotlin numeric conversions shared by the perception core.
 *
 * Depths, scores and world coordinates are `real` (the app's `Float`/`Double`
 * without rounding); pixel coordinates are `int`.
 */
module Common {

  datatype Option<+T> = None | Some(value: T)

  /** Left, front or right third of the frame; spoken as "L", "F" and "R". */
  datatype Sector = Left | Front | Right

  /** A float cell that may hold +Infinity (the safe map's "no surface", a depth of 1/0). */
  datatype Dist = Finite(value: real) | Inf

  /** `d < c` for a finite depth `d` and a float cell `c` that may be +Infinity. */
  predicate Below(d: real, c: Dist) {
    c.Inf? || d < c.value
  }

  /** A box as destructured by `val (x1, y1, x2, y2) = bbox`. */
  datatype Box = Box(x1: int, y1: int, x2: int, y2: int)

  /** Kotlin's destructuring reads the first four coordinates and ignores the rest. */
  function BoxOf(coords: seq<int>): (b: Box)
    requires |coords| >= 4
    ensures b.x1 == coords[0] && b.y1 == coords[1] && b.x2 == coords[2] && b.y2 == coords[3]
  {
    Box(coords[0], coords[1], coords[2], coords[3])
  }

  /** Kotlin `Int / Int` for a positive divisor: the quotient is truncated toward zero. */
  function KDiv(a: int, b: int): (q: int)
    requires b > 0
    ensures a >= 0 ==> 0 <= q * b <= a < q * b + b
    ensures a < 0 ==> q * b - b < a <= q * b <= 0
  {
    DivBounds(if a >= 0 then a else -a, b);
    if a >= 0 then a / b else -((-a) / b)
  }

  lemma DivBounds(a: nat, b: int)
    requires b > 0
    ensures 0 <= (a / b) * b <= a < (a / b) * b + b
  {
    assert a == b * (a / b) + a % b;
  }

  /** Kotlin `Float.toInt()` on a finite value: truncation toward zero. */
  function Trunc(r: real): (t: int)
    ensures r >= 0.0 ==> 0 <= t && t as real <= r < t as real + 1.0
    ensures r < 0.0 ==> t <= 0 && t as real - 1.0 < r <= t as real
  {
    if r >= 0.0 then r.Floor else -((-r).Floor)
  }

  /** Kotlin `coerceIn(lo, hi)`; it throws when `lo > hi`, which the callers here never pass. */
  function CoerceIn(v: real, lo: real, hi: real): (r: real)
    requires lo <= hi
    ensures lo <= r <= hi
    ensures lo <= v <= hi ==> r == v
    ensures v < lo ==> r == lo
    ensures hi < v ==> r == hi
  {
    if v < lo then lo else if hi < v then hi else v
  }

  function Min(a: real, b: real): real { if a <= b then a else b }

  function Max(a: real, b: real): real { if a >= b then a else b }

  /**
   * The thirds rule shared by dist_Cal and isSafe: a centre column left of
   * `width / 3` is Left, left of `2 * (width / 3)` is Front, otherwise Right.
   */
  function SectorOf(centerX: int, width: nat): (s: Sector)
    ensures s == Left <==> centerX < width / 3
    ensures s == Front <==> width / 3 <= centerX < 2 * (width / 3)
    ensures s == Right <==> 2 * (width / 3) <= centerX
  {
    var third := width / 3;
    if centerX < third then Left
    else if centerX < third * 2 then Front
    else Right
  }

  /** The sector of a box: `centerX = (x1 + x2) / 2` with Kotlin integer division. */
  function BoxSector(b: Box, width: nat): Sector {
    SectorOf(KDiv(b.x1 + b.x2, 2), width)
  }

  /** A row-major grid with `h` rows of `w` cells each. */
  ghost predicate IsShape<T>(m: seq<seq<T>>, h: nat, w: nat) {
    |m| == h && forall y :: 0 <= y < h ==> |m[y]| == w
  }

  /** `r` is the least element of `vals`, or None exactly when `vals` is empty. */
  ghost predicate IsLeast(r: Option<real>, vals: set<real>) {
    match r
    case None => vals == {}
    case Some(d) => d in vals && forall v :: v in vals ==> d <= v
  }

  /** `r` is the greatest element of `vals`, or None exactly when `vals` is empty. */
  ghost predicate IsGreatest(r: Option<real>, vals: set<real>) {
    match r
    case None => vals == {}
    case Some(d) => d in vals && forall v :: v in vals ==> v <= d
  }

  /** Frame width 300: centres 50, 150, 250 fall in Left, Front, Right; the boundaries 100 and 200 belong to the band on their right. */
  lemma SectorBoundaries()
    ensures SectorOf(50, 300) == Left && SectorOf(99, 300) == Left
    ensures SectorOf(100, 300) == Front && SectorOf(150, 300) == Front && SectorOf(199, 300) == Front
    ensures SectorOf(200, 300) == Right && SectorOf(250, 300) == Right
  {
  }

  /** The sector never moves left as the centre column moves right. */
  lemma SectorMonotone(c1: int, c2: int, width: nat)
    requires c1 <= c2
    ensures SectorOf(c1, width) == Right ==> SectorOf(c2, width) == Right
    ensures SectorOf(c2, width) == Left ==> SectorOf(c1, width) == Left
  {
  }
}
