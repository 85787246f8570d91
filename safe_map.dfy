/**
 * The safe-distance map of distance_Cal_make_map.kt:13-70 (`makeMap`): for every pixel
 * of an n x n image, the distance at which the floor or one of the two side walls of
 * a hazard-free corridor would be seen, or +infinity where neither is visible.
 *
 * Doubles are modelled as reals; the square root is a parameter (`IsSqrt` says what
 * the properties need of it).
 */
module SafeMap {
  import opened Common

  /* ---------- camera-mount constants (distance_Cal_make_map.kt:18-23) ---------- */

  /** Camera height above the floor, in metres. */
  const H: real := 1.3
  /** Nearest distance the map describes. */
  const StartZ: real := 1.75
  /** World x of the left and right walls. */
  const LeftWorld: real := -0.6
  const RightWorld: real := 0.6
  const WallHeight: real := 1.7
  /** Denominators smaller than this in magnitude give no candidate. */
  const Eps: real := 0.000000001

  /* ---------- image geometry (distance_Cal_make_map.kt:14-26) ---------- */

  function CenterX(n: nat): int {
    n / 2
  }

  /** `(n * 0.3).toInt()`: the row of the vanishing point. */
  function VanishingRow(n: nat): (vy: int)
    ensures 0 <= vy <= n
  {
    Trunc(n as real * 0.3)
  }

  function BottomY(n: nat): int {
    n + VanishingRow(n)
  }

  /** Pixels per metre across the corridor at the bottom row. */
  function ScaleX(n: nat): (s: real)
    ensures n > 0 ==> s > 0.0
  {
    (BottomY(n) - VanishingRow(n)) as real / (RightWorld - LeftWorld)
  }

  function Abs(x: real): real {
    if x < 0.0 then -x else x
  }

  /** A pixel of the n x n map. */
  predicate InMap(n: nat, u: int, v: int) {
    0 <= u < n && 0 <= v < n
  }

  /* ---------- unprojection (distance_Cal_make_map.kt:28-47) ---------- */

  datatype Point3 = Point3(x: real, y: real, z: real)

  /** The floor point seen at pixel (u, v); none at or above the vanishing row. */
  function UnprojectFloor(n: nat, u: int, v: int): Option<Point3>
    requires InMap(n, u, v)
  {
    var factor := (v - VanishingRow(n)) as real / (BottomY(n) - VanishingRow(n)) as real;
    if factor <= 0.0 then None
    else
      var z := StartZ + H / factor - H;
      assert ScaleX(n) * factor > 0.0 by { Positive(ScaleX(n), factor); }
      var x := (u - CenterX(n)) as real / (ScaleX(n) * factor);
      Some(Point3(x, 0.0, z))
  }

  /** The point of the wall at world x `wallX` seen at pixel (u, v), if any. */
  function UnprojectWall(n: nat, u: int, v: int, wallX: real): Option<Point3>
    requires InMap(n, u, v)
  {
    WallAt(wallX, wallX * ScaleX(n), (u - CenterX(n)) as real,
      (v - VanishingRow(n)) as real, (BottomY(n) - VanishingRow(n)) as real)
  }

  /**
   * The wall branch on the quantities it reads: `denom` is wallX times the scale, `du`
   * the column offset from the centre, `num` the row offset from the vanishing row and
   * `rows` the image rows between vanishing row and bottom.
   */
  function WallAt(wallX: real, denom: real, du: real, num: real, rows: real): Option<Point3> {
    if Abs(denom) < Eps then None
    else
      var factor := du / denom;
      if factor <= 0.0 then None
      else
        var z := StartZ + H / factor - H;
        var denom2 := rows * factor;
        if Abs(denom2) < Eps then None
        else
          var y := H - H * (num / denom2);
          Some(Point3(wallX, y, z))
  }

  /* ---------- candidates and the cell value (distance_Cal_make_map.kt:52-66) ---------- */

  /** distance_Cal_make_map.kt:54: the floor point lies between the walls and beyond StartZ. */
  predicate FloorAccepted(p: Point3) {
    LeftWorld <= p.x <= RightWorld && p.z >= StartZ
  }

  /** distance_Cal_make_map.kt:58, 62: the wall point lies between floor and wall top, beyond StartZ. */
  predicate WallAccepted(p: Point3) {
    0.0 <= p.y <= WallHeight && p.z >= StartZ
  }

  /** `sqrt(x)`, the square root the distances are taken with. */
  function Root(sqrt: real -> real, x: real): real {
    sqrt(x)
  }

  function Sq(a: real): real {
    a * a
  }

  /** distance_Cal_make_map.kt:55: the floor distance, without a camera-height term. */
  function FloorDistance(sqrt: real -> real, p: Point3): real {
    Root(sqrt, Sq(p.x) + Sq(p.z))
  }

  /** distance_Cal_make_map.kt:59, 63: the wall distance, with y measured from the camera height. */
  function WallDistance(sqrt: real -> real, p: Point3): real {
    Root(sqrt, Sq(p.x) + Sq(p.y - H) + Sq(p.z))
  }

  function FloorCandidate(n: nat, sqrt: real -> real, u: int, v: int): seq<real>
    requires InMap(n, u, v)
  {
    var floor := UnprojectFloor(n, u, v);
    if floor.Some? && FloorAccepted(floor.value) then [FloorDistance(sqrt, floor.value)] else []
  }

  function WallCandidate(n: nat, sqrt: real -> real, u: int, v: int, wallX: real): seq<real>
    requires InMap(n, u, v)
  {
    var wall := UnprojectWall(n, u, v, wallX);
    if wall.Some? && WallAccepted(wall.value) then [WallDistance(sqrt, wall.value)] else []
  }

  /** The accepted distances of one pixel, floor first, then the left and right walls. */
  function Candidates(n: nat, sqrt: real -> real, u: int, v: int): seq<real>
    requires InMap(n, u, v)
  {
    FloorCandidate(n, sqrt, u, v) + WallCandidate(n, sqrt, u, v, LeftWorld)
      + WallCandidate(n, sqrt, u, v, RightWorld)
  }

  /** `minOrNull() ?: +infinity`. */
  function MinOrInf(cands: seq<real>): (d: Dist)
    ensures d == Inf <==> |cands| == 0
    ensures d.Finite? ==> d.value in cands && forall c :: c in cands ==> d.value <= c
  {
    if |cands| == 0 then Inf
    else
      match MinOrInf(cands[1..])
      case Inf => Finite(cands[0])
      case Finite(rest) =>
        assert forall c :: c in cands ==> c == cands[0] || c in cands[1..];
        Finite(Min(cands[0], rest))
  }

  /** The value makeMap stores at row v, column u. */
  function Cell(n: nat, sqrt: real -> real, u: int, v: int): Dist
    requires InMap(n, u, v)
  {
    MinOrInf(Candidates(n, sqrt, u, v))
  }

  /* ---------- makeMap (distance_Cal_make_map.kt:49-69) ---------- */

  /** The n x n map, filled row by row with each pixel's nearest accepted distance. */
  method MakeMap(n: nat, sqrt: real -> real) returns (distanceMap: array2<Dist>)
    ensures fresh(distanceMap)
    ensures distanceMap.Length0 == n && distanceMap.Length1 == n
    ensures forall v, u :: 0 <= v < n && 0 <= u < n ==> distanceMap[v, u] == Cell(n, sqrt, u, v)
  {
    distanceMap := new Dist[n, n]((_, _) => Inf);
    for v := 0 to n
      invariant forall y, x :: 0 <= y < v && 0 <= x < n ==> distanceMap[y, x] == Cell(n, sqrt, x, y)
    {
      ghost var expected := seq(n, x requires 0 <= x < n => Cell(n, sqrt, x, v));
      FillRow(distanceMap, n, sqrt, v, expected);
    }
  }

  /** One pass of makeMap's inner loop: row v of the map, whose cells are `expected`. */
  method FillRow(distanceMap: array2<Dist>, n: nat, sqrt: real -> real, v: int, ghost expected: seq<Dist>)
    requires distanceMap.Length0 == n && distanceMap.Length1 == n && 0 <= v < n && |expected| == n
    requires forall x {:trigger Cell(n, sqrt, x, v)} :: 0 <= x < n ==> Cell(n, sqrt, x, v) == expected[x]
    modifies distanceMap
    ensures forall u :: 0 <= u < n ==> distanceMap[v, u] == expected[u]
    ensures forall y, x :: 0 <= y < n && y != v && 0 <= x < n ==> distanceMap[y, x] == old(distanceMap[y, x])
  {
    for u := 0 to n
      invariant forall x :: 0 <= x < u ==> distanceMap[v, x] == expected[x]
      invariant forall y, x :: 0 <= y < n && y != v && 0 <= x < n ==> distanceMap[y, x] == old(distanceMap[y, x])
    {
      var d := PixelDistance(n, sqrt, u, v);
      distanceMap[v, u] := d;
    }
  }

  /** The body of makeMap's inner loop: the candidate list of one pixel and its minimum. */
  method PixelDistance(n: nat, sqrt: real -> real, u: int, v: int) returns (d: Dist)
    requires InMap(n, u, v)
    ensures d == Cell(n, sqrt, u, v)
  {
    var candidates: seq<real> := [];
    var floor := UnprojectFloor(n, u, v);
    if floor.Some? && FloorAccepted(floor.value) {
      candidates := candidates + [FloorDistance(sqrt, floor.value)];
    }
    var left := UnprojectWall(n, u, v, LeftWorld);
    if left.Some? && WallAccepted(left.value) {
      candidates := candidates + [WallDistance(sqrt, left.value)];
    }
    var right := UnprojectWall(n, u, v, RightWorld);
    if right.Some? && WallAccepted(right.value) {
      candidates := candidates + [WallDistance(sqrt, right.value)];
    }
    assert candidates == Candidates(n, sqrt, u, v);
    d := MinOrInf(candidates);
  }

  /* ---------- properties ---------- */

  lemma Positive(a: real, b: real)
    requires a > 0.0 && b > 0.0
    ensures a * b > 0.0
  {
  }

  /** The floor is seen exactly in the rows below the vanishing row. */
  lemma FloorBelowHorizon(n: nat, u: int, v: int)
    requires InMap(n, u, v)
    ensures UnprojectFloor(n, u, v).Some? <==> v > VanishingRow(n)
  {
    var d := (BottomY(n) - VanishingRow(n)) as real;
    var num := (v - VanishingRow(n)) as real;
    assert d == n as real && d > 0.0;
    var factor := num / d;
    assert factor * d == num;
    if num > 0.0 {
      assert factor > 0.0;
    } else {
      assert factor <= 0.0;
    }
  }

  /** The left wall is seen exactly left of the centre column. */
  lemma LeftWallSide(n: nat, u: int, v: int)
    requires InMap(n, u, v)
    ensures UnprojectWall(n, u, v, LeftWorld).Some? <==> u < CenterX(n)
  {
    WallSide(n, u, v, LeftWorld);
    assert (u - CenterX(n)) as real * LeftWorld > 0.0 <==> u < CenterX(n);
  }

  /** The right wall is seen exactly right of the centre column. */
  lemma RightWallSide(n: nat, u: int, v: int)
    requires InMap(n, u, v)
    ensures UnprojectWall(n, u, v, RightWorld).Some? <==> u > CenterX(n)
  {
    WallSide(n, u, v, RightWorld);
    assert (u - CenterX(n)) as real * RightWorld > 0.0 <==> u > CenterX(n);
  }

  /** A wall 0.6 m from the camera axis is seen where `u - centerX` has its sign. */
  lemma WallSide(n: nat, u: int, v: int, wallX: real)
    requires InMap(n, u, v) && (wallX == LeftWorld || wallX == RightWorld)
    ensures UnprojectWall(n, u, v, wallX).Some? <==> (u - CenterX(n)) as real * wallX > 0.0
  {
    ScaleFacts(n, ScaleX(n));
    assert (BottomY(n) - VanishingRow(n)) as real == n as real;
    WallSideReal(wallX, ScaleX(n), u - CenterX(n), (v - VanishingRow(n)) as real,
      (BottomY(n) - VanishingRow(n)) as real);
  }

  /**
   * WallSide on the quantities the wall branch reads: with `rows = 1.2 * s` image rows
   * and an integer column offset `k`, the three guards pass exactly when `k` has the
   * sign of `wallX`.
   */
  lemma WallSideReal(wallX: real, s: real, k: int, num: real, rows: real)
    requires wallX == LeftWorld || wallX == RightWorld
    requires s >= 0.8 && s * 1.2 == rows
    ensures WallAt(wallX, wallX * s, k as real, num, rows).Some? <==> k as real * wallX > 0.0
  {
    var denom := wallX * s;
    DenomFacts(wallX, s, denom);
    SignOfQuotient(k as real, denom, wallX, s);
    WallSomeIff(wallX, denom, k as real, num, rows);
    if k as real * wallX > 0.0 {
      var factor := k as real / denom;
      assert k != 0;
      assert factor * denom == k as real;
      WallDenominator(rows, s, factor, k as real, wallX);
    }
  }

  /** The wall branch yields a point exactly when none of its three guards fires. */
  lemma WallSomeIff(wallX: real, denom: real, du: real, num: real, rows: real)
    ensures WallAt(wallX, denom, du, num, rows).Some? <==>
      Abs(denom) >= Eps && du / denom > 0.0 && Abs(rows * (du / denom)) >= Eps
  {
  }

  lemma ScaleFacts(n: nat, s: real)
    requires InMap(n, 0, 0) && s == ScaleX(n)
    ensures s * 1.2 == n as real && s >= 0.8
  {
  }

  lemma DenomFacts(wallX: real, s: real, denom: real)
    requires (wallX == LeftWorld || wallX == RightWorld) && s >= 0.8 && denom == wallX * s
    ensures Abs(denom) >= Eps
  {
    if wallX > 0.0 { assert denom >= 0.6 * 0.8; } else { assert -denom >= 0.6 * 0.8; }
  }

  /** `du / (wallX * s)` with `s > 0` is positive exactly when `du * wallX` is. */
  lemma SignOfQuotient(du: real, denom: real, wallX: real, s: real)
    requires s > 0.0 && wallX != 0.0 && denom == wallX * s
    ensures du / denom > 0.0 <==> du * wallX > 0.0
  {
    var q := du / denom;
    assert q * denom == du;
    assert du * wallX == q * (wallX * wallX * s);
    Positive(wallX * wallX, s);
  }

  /** The second wall denominator `rows * factor` is `2 * du` in magnitude, so at least 2. */
  lemma WallDenominator(rows: real, s: real, factor: real, du: real, wallX: real)
    requires s * 1.2 == rows && factor * (wallX * s) == du
    requires wallX == 0.6 || wallX == -0.6
    requires du * wallX > 0.0 && (du >= 1.0 || du <= -1.0)
    ensures Abs(rows * factor) >= 2.0
  {
    var sf := s * factor;
    assert rows * factor == 1.2 * sf;
    assert sf * wallX == du;
  }

  /** The centre column sees neither wall. */
  lemma CentreColumnHasNoWall(n: nat, v: int)
    requires InMap(n, CenterX(n), v)
    ensures UnprojectWall(n, CenterX(n), v, LeftWorld).None?
    ensures UnprojectWall(n, CenterX(n), v, RightWorld).None?
  {
    LeftWallSide(n, CenterX(n), v);
    RightWallSide(n, CenterX(n), v);
  }

  /** What the properties below need of the square-root parameter. */
  ghost predicate IsSqrt(sqrt: real -> real) {
    forall x :: 0.0 <= x ==> 0.0 <= Root(sqrt, x) && Sq(Root(sqrt, x)) == x
  }

  /** `p * q > 0` with `q >= 0` makes `p` positive. */
  lemma PositiveFactor(p: real, q: real)
    requires q >= 0.0 && p * q > 0.0
    ensures p > 0.0
  {
  }

  /** `p * q >= 0` with `q > 0` makes `p` non-negative. */
  lemma NonNegativeFactor(p: real, q: real)
    requires q > 0.0 && p * q >= 0.0
    ensures p >= 0.0
  {
  }

  lemma SqNonNegative(a: real)
    ensures Sq(a) >= 0.0
  {
    if a < 0.0 {
      assert Sq(a) == (-a) * (-a);
    }
  }

  /** A non-negative root of a value at least `z * z` is at least `z`. */
  lemma SqrtAtLeast(sqrt: real -> real, x: real, z: real)
    requires IsSqrt(sqrt) && 0.0 <= z && Sq(z) <= x
    ensures Root(sqrt, x) >= z
  {
    var r := Root(sqrt, x);
    assert 0.0 <= r && Sq(r) == x;
    assert (r - z) * (r + z) == Sq(r) - Sq(z);
    if r + z > 0.0 {
      NonNegativeFactor(r - z, r + z);
    }
  }

  /** An accepted floor point is at least StartZ away. */
  lemma FloorAcceptedBeyond(sqrt: real -> real, p: Point3)
    requires IsSqrt(sqrt) && FloorAccepted(p)
    ensures FloorDistance(sqrt, p) >= StartZ
  {
    SqNonNegative(p.x);
    SqrtAtLeast(sqrt, Sq(p.x) + Sq(p.z), p.z);
  }

  /** An accepted wall point is at least StartZ away. */
  lemma WallAcceptedBeyond(sqrt: real -> real, p: Point3)
    requires IsSqrt(sqrt) && WallAccepted(p)
    ensures WallDistance(sqrt, p) >= StartZ
  {
    SqNonNegative(p.x);
    SqNonNegative(p.y - H);
    SqrtAtLeast(sqrt, Sq(p.x) + Sq(p.y - H) + Sq(p.z), p.z);
  }

  /** Every accepted candidate is at least StartZ away. */
  lemma CandidatesBeyondStartZ(n: nat, sqrt: real -> real, u: int, v: int)
    requires InMap(n, u, v) && IsSqrt(sqrt)
    ensures forall c :: c in Candidates(n, sqrt, u, v) ==> c >= StartZ
  {
    var floor := UnprojectFloor(n, u, v);
    if floor.Some? && FloorAccepted(floor.value) {
      FloorAcceptedBeyond(sqrt, floor.value);
    }
    var left := UnprojectWall(n, u, v, LeftWorld);
    if left.Some? && WallAccepted(left.value) {
      WallAcceptedBeyond(sqrt, left.value);
    }
    var right := UnprojectWall(n, u, v, RightWorld);
    if right.Some? && WallAccepted(right.value) {
      WallAcceptedBeyond(sqrt, right.value);
    }
  }

  /** A finite cell of the map is at least StartZ. */
  lemma FiniteCellBeyondStartZ(n: nat, sqrt: real -> real, u: int, v: int)
    requires InMap(n, u, v) && IsSqrt(sqrt)
    ensures Cell(n, sqrt, u, v).Finite? ==> Cell(n, sqrt, u, v).value >= StartZ
  {
    CandidatesBeyondStartZ(n, sqrt, u, v);
  }

  /**
   * The floor distance leaves out the camera height: for a point on the floor it is
   * shorter than the distance the wall formula, which measures y from the camera, gives.
   */
  lemma FloorOmitsCameraHeight(sqrt: real -> real, p: Point3)
    requires IsSqrt(sqrt) && p.y == 0.0
    ensures FloorDistance(sqrt, p) < WallDistance(sqrt, p)
  {
    var a := Sq(p.x) + Sq(p.z);
    var b := Sq(p.x) + Sq(p.y - H) + Sq(p.z);
    assert Sq(p.y - H) == 1.69;
    SqNonNegative(p.x);
    SqNonNegative(p.z);
    var ra, rb := Root(sqrt, a), Root(sqrt, b);
    assert Sq(ra) == a && Sq(rb) == b && 0.0 <= ra && 0.0 <= rb;
    assert (rb - ra) * (rb + ra) == Sq(rb) - Sq(ra);
    PositiveFactor(rb - ra, rb + ra);
  }

  /** Lower rows see nearer floor: the floor depth falls as v grows below the horizon. */
  lemma FloorNearerDownward(n: nat, u: int, v1: int, v2: int)
    requires InMap(n, u, v1) && InMap(n, u, v2) && VanishingRow(n) < v1 < v2
    ensures UnprojectFloor(n, u, v1).Some? && UnprojectFloor(n, u, v2).Some?
    ensures UnprojectFloor(n, u, v1).value.z > UnprojectFloor(n, u, v2).value.z
  {
    FloorBelowHorizon(n, u, v1);
    FloorBelowHorizon(n, u, v2);
    var d := (BottomY(n) - VanishingRow(n)) as real;
    var f1 := (v1 - VanishingRow(n)) as real / d;
    var f2 := (v2 - VanishingRow(n)) as real / d;
    DivideMonotone((v1 - VanishingRow(n)) as real, (v2 - VanishingRow(n)) as real, d);
    InverseDecreases(H, f1, f2);
  }

  lemma DivideMonotone(a: real, b: real, d: real)
    requires 0.0 < a < b && d > 0.0
    ensures 0.0 < a / d < b / d
  {
    var qa, qb := a / d, b / d;
    assert qa * d == a && qb * d == b;
    assert (qb - qa) * d == b - a;
    PositiveFactor(qb - qa, d);
    PositiveFactor(qa, d);
  }

  lemma InverseDecreases(h: real, a: real, b: real)
    requires h > 0.0 && 0.0 < a < b
    ensures h / a > h / b
  {
    var qa, qb := h / a, h / b;
    assert qa * a == h && qb * b == h;
    PositiveFactor(qb, b);
    assert qb * a < qb * b;
    assert (qa - qb) * a == h - qb * a;
    PositiveFactor(qa - qb, a);
  }
}
