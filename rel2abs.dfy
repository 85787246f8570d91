/**
 * rel2abs.kt: from a relative (inverse) depth map and a few pixels of known metric
 * depth to a metric depth map, by fitting `1/depth = s*rel + t*(1 - rel)` with least
 * squares over the known points.
 */
module Rel2Abs {
  import opened Common

  /** The singularity threshold on the determinant of the normal matrix. */
  const SingularEps: real := 0.000001

  /** `Triple(x, y, realDepth)`: a pixel and its depth in metres. */
  datatype KnownPoint = KnownPoint(x: int, y: int, realDepth: real)

  /** The input is a non-empty rectangle (the source reads the width off row 0). */
  ghost predicate WellFormed(m: seq<seq<real>>) {
    |m| > 0 && IsShape(m, |m|, |m[0]|)
  }

  /* ---------- 1. the maximum (rel2abs.kt:24-29) ---------- */

  /** `maxVal = max(maxVal, value)` along one row; None stands for the initial negative infinity. */
  function RowMax(acc: Option<real>, row: seq<real>): Option<real>
    decreases |row|
  {
    if row == [] then acc
    else RowMax(Some(if acc.None? then row[0] else Max(acc.value, row[0])), row[1..])
  }

  /** The same over the rows in order. */
  function MapMax(acc: Option<real>, m: seq<seq<real>>): Option<real>
    decreases |m|
  {
    if m == [] then acc else MapMax(RowMax(acc, m[0]), m[1..])
  }

  ghost function RowCells(row: seq<real>): set<real> {
    set j | 0 <= j < |row| :: row[j]
  }

  ghost function Cells(m: seq<seq<real>>): set<real> {
    set i, j | 0 <= i < |m| && 0 <= j < |m[i]| :: m[i][j]
  }

  lemma {:induction false} RowMaxGreatest(acc: Option<real>, row: seq<real>, seen: set<real>)
    requires IsGreatest(acc, seen)
    ensures IsGreatest(RowMax(acc, row), seen + RowCells(row))
    decreases |row|
  {
    if row != [] {
      var acc' := Some(if acc.None? then row[0] else Max(acc.value, row[0]));
      RowMaxGreatest(acc', row[1..], seen + {row[0]});
      assert RowCells(row) == {row[0]} + RowCells(row[1..]) by {
        forall v | v in RowCells(row) ensures v in {row[0]} + RowCells(row[1..]) {
          var j :| 0 <= j < |row| && row[j] == v;
          if j > 0 {
            assert row[1..][j - 1] == v;
          }
        }
        forall v | v in RowCells(row[1..]) ensures v in RowCells(row) {
          var j :| 0 <= j < |row[1..]| && row[1..][j] == v;
          assert row[j + 1] == v;
        }
      }
    }
  }

  lemma {:induction false} MapMaxGreatest(acc: Option<real>, m: seq<seq<real>>, seen: set<real>)
    requires IsGreatest(acc, seen)
    ensures IsGreatest(MapMax(acc, m), seen + Cells(m))
    decreases |m|
  {
    if m != [] {
      RowMaxGreatest(acc, m[0], seen);
      MapMaxGreatest(RowMax(acc, m[0]), m[1..], seen + RowCells(m[0]));
      assert Cells(m) == RowCells(m[0]) + Cells(m[1..]) by {
        forall v | v in Cells(m) ensures v in RowCells(m[0]) + Cells(m[1..]) {
          var i, j :| 0 <= i < |m| && 0 <= j < |m[i]| && m[i][j] == v;
          if i > 0 {
            assert m[1..][i - 1][j] == v;
          }
        }
        forall v | v in Cells(m[1..]) ensures v in Cells(m) {
          var i, j :| 0 <= i < |m[1..]| && 0 <= j < |m[1..][i]| && m[1..][i][j] == v;
          assert m[i + 1][j] == v;
        }
      }
    }
  }

  /** The two nested loops of rel2abs.kt:24-29: the largest value of the map, None when it has no cell. */
  method MaxValue(m: seq<seq<real>>) returns (maxVal: Option<real>)
    ensures maxVal == MapMax(None, m)
    ensures IsGreatest(maxVal, Cells(m))
  {
    maxVal := None;
    for y := 0 to |m|
      invariant MapMax(maxVal, m[y..]) == MapMax(None, m)
    {
      var row := m[y];
      assert m[y..] == [row] + m[y + 1..];
      for x := 0 to |row|
        invariant MapMax(RowMax(maxVal, row[x..]), m[y + 1..]) == MapMax(None, m)
      {
        assert row[x..][1..] == row[x + 1..];
        maxVal := Some(if maxVal.None? then row[x] else Max(maxVal.value, row[x]));
      }
      assert row[|row|..] == [];
    }
    assert m[|m|..] == [];
    MapMaxGreatest(None, m, {});
  }

  /* ---------- 2. normalisation (rel2abs.kt:35-37) ---------- */

  /** `midasDepthArray[y][x] / maxVal`, cell by cell, over the height x width rectangle. */
  function Normalize(m: seq<seq<real>>, maxVal: real): (n: seq<seq<real>>)
    requires WellFormed(m) && maxVal > 0.0
    ensures IsShape(n, |m|, |m[0]|)
    ensures forall y, x :: 0 <= y < |m| && 0 <= x < |m[0]| ==> n[y][x] == m[y][x] / maxVal
  {
    seq(|m|, y requires 0 <= y < |m| => seq(|m[0]|, x requires 0 <= x < |m[0]| => m[y][x] / maxVal))
  }

  /** Dividing by the maximum: every normalised value is at most 1, and a cell holding the maximum becomes 1. */
  lemma NormalizedAtMostOne(m: seq<seq<real>>)
    requires WellFormed(m)
    requires MapMax(None, m).Some? && MapMax(None, m).value > 0.0
    ensures var maxVal := MapMax(None, m).value;
      var n := Normalize(m, maxVal);
      && (forall y, x :: 0 <= y < |m| && 0 <= x < |m[0]| ==> n[y][x] <= 1.0)
      && (forall y, x :: 0 <= y < |m| && 0 <= x < |m[0]| && m[y][x] == maxVal ==> n[y][x] == 1.0)
      && (exists y, x :: 0 <= y < |m| && 0 <= x < |m[0]| && n[y][x] == 1.0)
  {
    var maxVal := MapMax(None, m).value;
    MapMaxGreatest(None, m, {});
    NormalizedBounded(m, maxVal);
    NormalizedReachesOne(m, maxVal);
  }

  lemma NormalizedReachesOne(m: seq<seq<real>>, maxVal: real)
    requires WellFormed(m) && maxVal > 0.0 && maxVal in Cells(m)
    ensures forall y, x :: 0 <= y < |m| && 0 <= x < |m[0]| && m[y][x] == maxVal ==> Normalize(m, maxVal)[y][x] == 1.0
    ensures exists y, x :: 0 <= y < |m| && 0 <= x < |m[0]| && Normalize(m, maxVal)[y][x] == 1.0
  {
    var y, x :| 0 <= y < |m| && 0 <= x < |m[y]| && m[y][x] == maxVal;
    assert Normalize(m, maxVal)[y][x] == 1.0;
  }

  lemma NormalizedBounded(m: seq<seq<real>>, maxVal: real)
    requires WellFormed(m) && maxVal > 0.0
    requires forall v :: v in Cells(m) ==> v <= maxVal
    ensures forall y, x :: 0 <= y < |m| && 0 <= x < |m[0]| ==> Normalize(m, maxVal)[y][x] <= 1.0
  {
    forall y, x | 0 <= y < |m| && 0 <= x < |m[0]| ensures Normalize(m, maxVal)[y][x] <= 1.0 {
      assert m[y][x] in Cells(m);
      RatioAtMostOne(m[y][x], maxVal);
    }
  }

  lemma RatioAtMostOne(v: real, maxVal: real)
    requires v <= maxVal && maxVal > 0.0
    ensures v / maxVal <= 1.0
  {
    assert v / maxVal * maxVal == v;
  }

  /* ---------- 3-4. the normal equations (rel2abs.kt:46-66) ---------- */

  /** A known point lies on the map and has a non-zero depth. */
  ghost predicate Usable(m: seq<seq<real>>, p: KnownPoint)
    requires WellFormed(m)
  {
    0 <= p.y < |m| && 0 <= p.x < |m[0]| && p.realDepth != 0.0
  }

  ghost predicate PointsUsable(m: seq<seq<real>>, points: seq<KnownPoint>)
    requires WellFormed(m)
  {
    forall k :: 0 <= k < |points| ==> Usable(m, points[k])
  }

  /** The map's maximum is positive and there are at least two points: the fit is attempted. */
  predicate Fitted(m: seq<seq<real>>, points: seq<KnownPoint>) {
    var maxVal := MapMax(None, m);
    maxVal.Some? && maxVal.value > 0.0 && |points| >= 2
  }

  /** The first column of A: each point's normalised relative depth. */
  function Rels(n: seq<seq<real>>, points: seq<KnownPoint>): (rels: seq<real>)
    requires |n| > 0 && IsShape(n, |n|, |n[0]|)
    requires forall k :: 0 <= k < |points| ==> 0 <= points[k].y < |n| && 0 <= points[k].x < |n[0]|
    ensures |rels| == |points|
    ensures forall k :: 0 <= k < |points| ==> rels[k] == n[points[k].y][points[k].x]
  {
    seq(|points|, k requires 0 <= k < |points| => n[points[k].y][points[k].x])
  }

  /** The second column of A: `1 - rel`. */
  function Complement(rels: seq<real>): (c: seq<real>)
    ensures |c| == |rels| && forall k :: 0 <= k < |c| ==> c[k] == 1.0 - rels[k]
  {
    seq(|rels|, k requires 0 <= k < |rels| => 1.0 - rels[k])
  }

  /** yVec: the inverse depth of each point. */
  function Targets(points: seq<KnownPoint>): (ys: seq<real>)
    requires forall k :: 0 <= k < |points| ==> points[k].realDepth != 0.0
    ensures |ys| == |points|
    ensures forall k :: 0 <= k < |points| ==> ys[k] * points[k].realDepth == 1.0
  {
    seq(|points|, k requires 0 <= k < |points| => 1.0 / points[k].realDepth)
  }

  /** The dot product of the first `n` entries of two columns. */
  function Dot(u: seq<real>, v: seq<real>, n: nat): real
    requires n <= |u| && n <= |v|
  {
    if n == 0 then 0.0 else Dot(u, v, n - 1) + u[n - 1] * v[n - 1]
  }

  lemma DotTwo(u: seq<real>, v: seq<real>)
    requires |u| == 2 && |v| == 2
    ensures Dot(u, v, 2) == u[0] * v[0] + u[1] * v[1]
  {
    assert Dot(u, v, 1) == u[0] * v[0];
  }

  /** The order of the columns does not matter. */
  lemma {:induction false} DotSymmetric(u: seq<real>, v: seq<real>, n: nat)
    requires n <= |u| && n <= |v|
    ensures Dot(u, v, n) == Dot(v, u, n)
  {
    if n > 0 {
      DotSymmetric(u, v, n - 1);
    }
  }

  /** AᵀA and Aᵀy. */
  datatype Normal = Normal(a00: real, a01: real, a10: real, a11: real, b0: real, b1: real)

  /** AᵀA and Aᵀy over the first `i` rows of A = (rels, 1 - rels) and y = ys. */
  function Prefix(rels: seq<real>, ys: seq<real>, i: nat): Normal
    requires i <= |rels| == |ys|
  {
    var c := Complement(rels);
    Normal(Dot(rels, rels, i), Dot(rels, c, i), Dot(c, rels, i), Dot(c, c, i), Dot(rels, ys, i), Dot(c, ys, i))
  }

  function NormalOf(rels: seq<real>, ys: seq<real>): Normal
    requires |rels| == |ys|
  {
    Prefix(rels, ys, |rels|)
  }

  /** One iteration of the accumulation loop: row `(r0, r1)` with target `y` added in. */
  function AddRow(g: Normal, r0: real, r1: real, y: real): Normal {
    Normal(g.a00 + r0 * r0, g.a01 + r0 * r1, g.a10 + r1 * r0, g.a11 + r1 * r1, g.b0 + r0 * y, g.b1 + r1 * y)
  }

  lemma PrefixStep(rels: seq<real>, ys: seq<real>, i: nat)
    requires i < |rels| == |ys|
    ensures Prefix(rels, ys, i + 1) == AddRow(Prefix(rels, ys, i), rels[i], 1.0 - rels[i], ys[i])
  {
  }


  /** The accumulated AᵀA is symmetric. */
  lemma NormalSymmetric(rels: seq<real>, ys: seq<real>)
    requires |rels| == |ys|
    ensures NormalOf(rels, ys).a01 == NormalOf(rels, ys).a10
  {
    DotSymmetric(rels, Complement(rels), |rels|);
  }

  function Det(g: Normal): real {
    g.a00 * g.a11 - g.a01 * g.a10
  }

  /** `abs(det) < 1e-6`: the system is treated as singular. */
  predicate NearSingular(det: real) {
    (if det < 0.0 then -det else det) < SingularEps
  }

  /** Cramer's rule for s. */
  function SolveS(g: Normal): real
    requires Det(g) != 0.0
  {
    (g.b0 * g.a11 - g.b1 * g.a01) / Det(g)
  }

  /** Cramer's rule for t. */
  function SolveT(g: Normal): real
    requires Det(g) != 0.0
  {
    (g.a00 * g.b1 - g.a10 * g.b0) / Det(g)
  }

  /** Cramer's solution satisfies both normal equations AᵀA·(s, t) = Aᵀy, whatever the number of points. */
  lemma CramerSolves(g: Normal)
    requires Det(g) != 0.0
    ensures g.a00 * SolveS(g) + g.a01 * SolveT(g) == g.b0
    ensures g.a10 * SolveS(g) + g.a11 * SolveT(g) == g.b1
  {
    var ns, nt, e := g.b0 * g.a11 - g.b1 * g.a01, g.a00 * g.b1 - g.a10 * g.b0, Det(g);
    assert ns * g.a00 + nt * g.a01 == e * g.b0;
    assert ns * g.a10 + nt * g.a11 == e * g.b1;
    LinearOverDivisor(ns, nt, g.a00, g.a01, e);
    LinearOverDivisor(ns, nt, g.a10, g.a11, e);
    DivideOut(e, g.b0);
    DivideOut(e, g.b1);
  }

  /* ---------- 5. the affine depth (rel2abs.kt:74-90) ---------- */

  /** `A_param * rel + B_param`: the fitted inverse depth at relative depth `rel`. */
  function InverseDepth(aParam: real, bParam: real, rel: real): real {
    aParam * rel + bParam
  }

  /** `1 / (A_param * rel + B_param)`; a zero denominator gives an infinite depth. */
  function CellDepth(aParam: real, bParam: real, rel: real): Dist {
    var denom := InverseDepth(aParam, bParam, rel);
    if denom == 0.0 then Inf else Finite(1.0 / denom)
  }

  /** The all-zero map returned on each failure path. */
  function ZeroMap(h: nat, w: nat): (z: seq<seq<Dist>>)
    ensures IsShape(z, h, w)
    ensures forall y, x :: 0 <= y < h && 0 <= x < w ==> z[y][x] == Finite(0.0)
  {
    seq(h, _ => seq(w, _ => Finite(0.0)))
  }

  /** The map of 1/(A_param * rel + B_param) over the normalised map. */
  function AffineMap(n: seq<seq<real>>, aParam: real, bParam: real): (r: seq<seq<Dist>>)
    ensures |r| == |n| && forall y :: 0 <= y < |n| ==> |r[y]| == |n[y]|
    ensures forall y, x :: 0 <= y < |n| && 0 <= x < |n[y]| ==> r[y][x] == CellDepth(aParam, bParam, n[y][x])
  {
    seq(|n|, y requires 0 <= y < |n| => seq(|n[y]|, x requires 0 <= x < |n[y]| => CellDepth(aParam, bParam, n[y][x])))
  }

  /**
   * convertRelativeToAbsoluteDepth as a function: a zero map when the maximum is not
   * positive, when fewer than two points are given, or when the normal matrix is near
   * singular; otherwise the fitted affine inverse depth, inverted cell by cell. Since
   * `1/(1/s) == s`, `A_param` is `s - t` and `B_param` is `t`.
   */
  function AbsoluteDepth(m: seq<seq<real>>, points: seq<KnownPoint>): (r: seq<seq<Dist>>)
    requires WellFormed(m)
    requires Fitted(m, points) ==> PointsUsable(m, points)
    ensures IsShape(r, |m|, |m[0]|)
  {
    var maxVal := MapMax(None, m);
    if maxVal.None? || maxVal.value <= 0.0 then ZeroMap(|m|, |m[0]|)
    else if |points| < 2 then ZeroMap(|m|, |m[0]|)
    else
      var n := Normalize(m, maxVal.value);
      var g := NormalOf(Rels(n, points), Targets(points));
      if NearSingular(Det(g)) then ZeroMap(|m|, |m[0]|)
      else
        var s, t := SolveS(g), SolveT(g);
        AffineMap(n, s - t, t)
  }

  /** rel2abs.kt:46-54: row i of A is `(rel, 1 - rel)` at point i, and `yVec[i]` its inverse depth. */
  method FillDesign(normalized: seq<seq<real>>, points: seq<KnownPoint>) returns (a: array2<real>, yVec: array<real>)
    requires |normalized| > 0 && IsShape(normalized, |normalized|, |normalized[0]|)
    requires forall k :: 0 <= k < |points| ==>
      0 <= points[k].y < |normalized| && 0 <= points[k].x < |normalized[0]| && points[k].realDepth != 0.0
    ensures fresh(a) && fresh(yVec)
    ensures a.Length0 == |points| && a.Length1 == 2 && yVec.Length == |points|
    ensures forall k :: 0 <= k < |points| ==>
      a[k, 0] == Rels(normalized, points)[k] && a[k, 1] == 1.0 - Rels(normalized, points)[k]
      && yVec[k] == Targets(points)[k]
  {
    var n := |points|;
    a := new real[n, 2];
    yVec := new real[n];
    for i := 0 to n
      invariant forall k :: 0 <= k < i ==>
        a[k, 0] == Rels(normalized, points)[k] && a[k, 1] == 1.0 - Rels(normalized, points)[k]
        && yVec[k] == Targets(points)[k]
    {
      var p := points[i];
      var rel := normalized[p.y][p.x];
      a[i, 0] := rel;
      a[i, 1] := 1.0 - rel;
      yVec[i] := 1.0 / p.realDepth;
    }
  }

  /** rel2abs.kt:57-66: AtA and Aty accumulated row by row; they hold AᵀA and Aᵀy. */
  method Accumulate(a: array2<real>, yVec: array<real>, ghost rels: seq<real>, ghost ys: seq<real>)
    returns (atA: array2<real>, atY: array<real>)
    requires a.Length1 == 2 && a.Length0 == yVec.Length == |rels| == |ys|
    requires forall k :: 0 <= k < |rels| ==> a[k, 0] == rels[k] && a[k, 1] == 1.0 - rels[k] && yVec[k] == ys[k]
    ensures fresh(atA) && fresh(atY) && atA.Length0 == 2 && atA.Length1 == 2 && atY.Length == 2
    ensures Normal(atA[0, 0], atA[0, 1], atA[1, 0], atA[1, 1], atY[0], atY[1]) == NormalOf(rels, ys)
  {
    atA := new real[2, 2]((_, _) => 0.0);
    atY := new real[2](_ => 0.0);
    for i := 0 to a.Length0
      invariant Normal(atA[0, 0], atA[0, 1], atA[1, 0], atA[1, 1], atY[0], atY[1]) == Prefix(rels, ys, i)
    {
      PrefixStep(rels, ys, i);
      var r0, r1, y := a[i, 0], a[i, 1], yVec[i];
      assert r0 == rels[i] && r1 == 1.0 - rels[i] && y == ys[i];
      // The six `+=` of one row; each reads and writes its own cell only.
      var next := AddRow(Normal(atA[0, 0], atA[0, 1], atA[1, 0], atA[1, 1], atY[0], atY[1]), r0, r1, y);
      atA[0, 0], atA[0, 1], atA[1, 0], atA[1, 1] := next.a00, next.a01, next.a10, next.a11;
      atY[0], atY[1] := next.b0, next.b1;
    }
  }


  /**
   * rel2abs.kt:16-93: the three guards, the least-squares fit through the arrays above,
   * then the affine map; the result is the map AbsoluteDepth describes.
   */
  method ConvertRelativeToAbsoluteDepth(m: seq<seq<real>>, points: seq<KnownPoint>)
    returns (absDepth: seq<seq<Dist>>)
    requires WellFormed(m)
    requires Fitted(m, points) ==> PointsUsable(m, points)
    ensures absDepth == AbsoluteDepth(m, points)
    ensures IsShape(absDepth, |m|, |m[0]|)
  {
    var height := |m|;
    var width := |m[0]|;
    var maxVal := MaxValue(m);
    if maxVal.None? || maxVal.value <= 0.0 {
      FailuresGiveZeroMap(m, points);
      return ZeroMap(height, width);
    }
    var normalized := Normalize(m, maxVal.value);
    if |points| < 2 {
      FailuresGiveZeroMap(m, points);
      return ZeroMap(height, width);
    }
    var a, yVec := FillDesign(normalized, points);
    ghost var rels := Rels(normalized, points);
    ghost var ys := Targets(points);
    var atA, atY := Accumulate(a, yVec, rels, ys);
    ghost var g := NormalOf(rels, ys);
    var singular, aParam, bParam := SolveParams(atA, atY, g);
    if singular {
      FailuresGiveZeroMap(m, points);
      return ZeroMap(height, width);
    }
    FittedPath(m, points, normalized, g, aParam, bParam);
    absDepth := AffineMap(normalized, aParam, bParam);
  }

  /**
   * rel2abs.kt:68-81: the determinant of AtA, the singularity test, Cramer's rule and
   * the parameters of the affine map.
   */
  method SolveParams(atA: array2<real>, atY: array<real>, ghost g: Normal)
    returns (singular: bool, aParam: real, bParam: real)
    requires atA.Length0 == 2 && atA.Length1 == 2 && atY.Length == 2
    requires Normal(atA[0, 0], atA[0, 1], atA[1, 0], atA[1, 1], atY[0], atY[1]) == g
    ensures singular == NearSingular(Det(g))
    ensures !singular ==> aParam == SolveS(g) - SolveT(g) && bParam == SolveT(g)
    ensures !singular ==>
      g.a00 * (aParam + bParam) + g.a01 * bParam == g.b0 && g.a10 * (aParam + bParam) + g.a11 * bParam == g.b1
  {
    var det := atA[0, 0] * atA[1, 1] - atA[0, 1] * atA[1, 0];
    if NearSingular(det) {
      return true, 0.0, 0.0;
    }
    var s := (atY[0] * atA[1, 1] - atY[1] * atA[0, 1]) / det;
    var t := (atA[0, 0] * atY[1] - atA[1, 0] * atY[0]) / det;
    CramerFromCells(g, atA[0, 0], atA[0, 1], atA[1, 0], atA[1, 1], atY[0], atY[1], det);
    CramerSolves(g);
    singular, aParam, bParam := false, s - t, t;
    assert aParam + bParam == s;
  }

  /** The method's Cramer step, read from the array cells, is SolveS and SolveT. */
  lemma CramerFromCells(g: Normal, a00: real, a01: real, a10: real, a11: real, b0: real, b1: real, det: real)
    requires g == Normal(a00, a01, a10, a11, b0, b1) && det == a00 * a11 - a01 * a10 && det != 0.0
    ensures (b0 * a11 - b1 * a01) / det == SolveS(g)
    ensures (a00 * b1 - a10 * b0) / det == SolveT(g)
  {
  }

  /* ---------- properties ---------- */

  /** Every failure path returns the all-zero map of the input's shape. */
  lemma FailuresGiveZeroMap(m: seq<seq<real>>, points: seq<KnownPoint>)
    requires WellFormed(m)
    requires Fitted(m, points) ==> PointsUsable(m, points)
    requires !Fitted(m, points) || NearSingular(Det(NormalOf(Rels(Normalize(m, MapMax(None, m).value), points), Targets(points))))
    ensures AbsoluteDepth(m, points) == ZeroMap(|m|, |m[0]|)
  {
  }

  /**
   * With exact arithmetic the fitted depth of a cell is `1/(s*rel + t*(1 - rel))`:
   * s is the inverse depth at relative depth 1, t the inverse depth at 0.
   */
  lemma FittedCellFormula(s: real, t: real, rel: real)
    ensures CellDepth(s - t, t, rel) ==
      if s * rel + t * (1.0 - rel) == 0.0 then Inf else Finite(1.0 / (s * rel + t * (1.0 - rel)))
  {
    assert (s - t) * rel + t == s * rel + t * (1.0 - rel);
  }

  /** AᵀA and Aᵀy of the 2 x 2 system `[[a, b], [c, d]] x = [y0, y1]`. */
  function SquareNormal(a: real, b: real, c: real, d: real, y0: real, y1: real): Normal {
    Normal(a * a + c * c, a * b + c * d, b * a + d * c, b * b + d * d, a * y0 + c * y1, b * y0 + d * y1)
  }

  /** For a square system, det(AᵀA) is det(A) squared. */
  lemma SquareNormalDet(a: real, b: real, c: real, d: real, y0: real, y1: real)
    ensures Det(SquareNormal(a, b, c, d, y0, y1)) == (a * d - b * c) * (a * d - b * c)
  {
  }

  /** The Cramer numerators of AᵀA are det(A) times those of A itself. */
  lemma SquareNormalNumerators(a: real, b: real, c: real, d: real, y0: real, y1: real)
    ensures var g := SquareNormal(a, b, c, d, y0, y1);
      && g.b0 * g.a11 - g.b1 * g.a01 == (a * d - b * c) * (d * y0 - b * y1)
      && g.a00 * g.b1 - g.a10 * g.b0 == (a * d - b * c) * (a * y1 - c * y0)
  {
  }

  lemma ProductNonZero(x: real, z: real)
    requires x != 0.0 && z != 0.0
    ensures x * z != 0.0
  {
    if x > 0.0 && z < 0.0 {
      assert x * (-z) > 0.0;
    } else if x < 0.0 && z > 0.0 {
      assert (-x) * z > 0.0;
    } else if x < 0.0 && z < 0.0 {
      assert (-x) * (-z) > 0.0;
    }
  }

  lemma MulCancel(x: real, y: real, z: real)
    requires z != 0.0 && x * z == y * z
    ensures x == y
  {
    assert (x - y) * z == 0.0;
    if x != y {
      ProductNonZero(x - y, z);
    }
  }

  lemma LinearOverDivisor(p: real, q: real, a: real, b: real, e: real)
    requires e != 0.0
    ensures (p / e) * a + (q / e) * b == (p * a + q * b) / e
  {
    var x, z := p / e, q / e;
    assert x * e == p && z * e == q;
    assert (x * a + z * b) * e == p * a + q * b;
  }

  /** `[[a, b], [c, d]]` applied to its own Cramer solution, before the division by e = ad - bc. */
  lemma CramerProducts(a: real, b: real, c: real, d: real, y0: real, y1: real)
    ensures (d * y0 - b * y1) * a + (a * y1 - c * y0) * b == (a * d - b * c) * y0
    ensures (d * y0 - b * y1) * c + (a * y1 - c * y0) * d == (a * d - b * c) * y1
  {
  }

  lemma DivideOut(e: real, y: real)
    requires e != 0.0
    ensures (e * y) / e == y
  {
    var w := (e * y) / e;
    assert w * e == y * e;
    MulCancel(w, y, e);
  }

  /** The Cramer numerators recombine to the determinant times the targets. */
  lemma SquareNormalRecombine(g: Normal, a: real, b: real, c: real, d: real, y0: real, y1: real)
    requires g == SquareNormal(a, b, c, d, y0, y1)
    ensures (g.b0 * g.a11 - g.b1 * g.a01) * a + (g.a00 * g.b1 - g.a10 * g.b0) * b == Det(g) * y0
    ensures (g.b0 * g.a11 - g.b1 * g.a01) * c + (g.a00 * g.b1 - g.a10 * g.b0) * d == Det(g) * y1
  {
    var e := a * d - b * c;
    var xs, xt := d * y0 - b * y1, a * y1 - c * y0;
    SquareNormalDet(a, b, c, d, y0, y1);
    SquareNormalNumerators(a, b, c, d, y0, y1);
    CramerProducts(a, b, c, d, y0, y1);
    assert (e * xs) * a + (e * xt) * b == e * (xs * a + xt * b);
    assert (e * xs) * c + (e * xt) * d == e * (xs * c + xt * d);
  }

  /** A square system whose normal matrix is not singular is solved exactly by the normal equations. */
  lemma SquareSystemExact(g: Normal, a: real, b: real, c: real, d: real, y0: real, y1: real)
    requires g == SquareNormal(a, b, c, d, y0, y1) && Det(g) != 0.0
    ensures SolveS(g) * a + SolveT(g) * b == y0
    ensures SolveS(g) * c + SolveT(g) * d == y1
  {
    var ns, nt := g.b0 * g.a11 - g.b1 * g.a01, g.a00 * g.b1 - g.a10 * g.b0;
    var e := Det(g);
    assert SolveS(g) == ns / e && SolveT(g) == nt / e;
    SquareNormalRecombine(g, a, b, c, d, y0, y1);
    assert ns * a + nt * b == e * y0 && ns * c + nt * d == e * y1;
    calc {
      SolveS(g) * a + SolveT(g) * b;
      (ns / e) * a + (nt / e) * b;
      { LinearOverDivisor(ns, nt, a, b, e); }
      (ns * a + nt * b) / e;
      (e * y0) / e;
      { DivideOut(e, y0); }
      y0;
    }
    calc {
      SolveS(g) * c + SolveT(g) * d;
      (ns / e) * c + (nt / e) * d;
      { LinearOverDivisor(ns, nt, c, d, e); }
      (ns * c + nt * d) / e;
      (e * y1) / e;
      { DivideOut(e, y1); }
      y1;
    }
  }

  /** Two points give the square system with rows `(r, 1 - r)`. */
  lemma TwoPointNormal(g: Normal, rels: seq<real>, ys: seq<real>)
    requires |rels| == 2 && |ys| == 2 && g == NormalOf(rels, ys)
    ensures g == SquareNormal(rels[0], 1.0 - rels[0], rels[1], 1.0 - rels[1], ys[0], ys[1])
  {
    var c := Complement(rels);
    assert c == [1.0 - rels[0], 1.0 - rels[1]];
    DotTwo(rels, rels);
    DotTwo(rels, c);
    DotTwo(c, rels);
    DotTwo(c, c);
    DotTwo(rels, ys);
    DotTwo(c, ys);
  }

  /** The two-point determinant is the squared gap between the relative depths. */
  lemma TwoPointDet(r0: real, r1: real, y0: real, y1: real)
    ensures Det(SquareNormal(r0, 1.0 - r0, r1, 1.0 - r1, y0, y1)) == (r0 - r1) * (r0 - r1)
  {
    SquareNormalDet(r0, 1.0 - r0, r1, 1.0 - r1, y0, y1);
    assert r0 * (1.0 - r1) - (1.0 - r0) * r1 == r0 - r1;
  }

  /** `(s - t) * r + t` is the interpolation `s * r + t * (1 - r)`. */
  lemma AffineForm(s: real, t: real, r: real, c: real)
    requires c == 1.0 - r
    ensures (s - t) * r + t == s * r + t * c
  {
  }

  /**
   * With two points and a normal matrix that is not singular the least-squares fit is
   * exact: at each point's relative depth the fitted inverse depth is that point's target.
   * The determinant is `(r0 - r1)²`, so this needs two distinct relative depths.
   */
  lemma TwoPointExactFit(g: Normal, r0: real, r1: real, y0: real, y1: real)
    requires g == SquareNormal(r0, 1.0 - r0, r1, 1.0 - r1, y0, y1)
    requires Det(g) != 0.0
    ensures InverseDepth(SolveS(g) - SolveT(g), SolveT(g), r0) == y0
    ensures InverseDepth(SolveS(g) - SolveT(g), SolveT(g), r1) == y1
  {
    SquareSystemExact(g, r0, 1.0 - r0, r1, 1.0 - r1, y0, y1);
    ExactFitFromSolution(SolveS(g), SolveT(g), r0, r1, y0, y1);
  }

  /** A solution of the two-point system, written as A_param = s - t and B_param = t, meets both targets. */
  lemma ExactFitFromSolution(s: real, t: real, r0: real, r1: real, y0: real, y1: real)
    requires s * r0 + t * (1.0 - r0) == y0 && s * r1 + t * (1.0 - r1) == y1
    ensures InverseDepth(s - t, t, r0) == y0 && InverseDepth(s - t, t, r1) == y1
  {
    AffineForm(s, t, r0, 1.0 - r0);
    AffineForm(s, t, r1, 1.0 - r1);
  }

  /** On the fitted path the output is the affine map of the solved parameters. */
  lemma FittedPath(m: seq<seq<real>>, points: seq<KnownPoint>, n: seq<seq<real>>, g: Normal, aParam: real, bParam: real)
    requires WellFormed(m) && Fitted(m, points) && PointsUsable(m, points)
    requires n == Normalize(m, MapMax(None, m).value)
    requires g == NormalOf(Rels(n, points), Targets(points)) && !NearSingular(Det(g))
    requires aParam == SolveS(g) - SolveT(g) && bParam == SolveT(g)
    ensures AbsoluteDepth(m, points) == AffineMap(n, aParam, bParam)
  {
  }

  /** On the fitted path each cell is the affine depth of its normalised value. */
  lemma FittedCell(m: seq<seq<real>>, points: seq<KnownPoint>, n: seq<seq<real>>, g: Normal, y: int, x: int)
    requires WellFormed(m) && Fitted(m, points) && PointsUsable(m, points)
    requires n == Normalize(m, MapMax(None, m).value)
    requires g == NormalOf(Rels(n, points), Targets(points)) && !NearSingular(Det(g))
    requires 0 <= y < |m| && 0 <= x < |m[0]|
    ensures AbsoluteDepth(m, points)[y][x] == CellDepth(SolveS(g) - SolveT(g), SolveT(g), n[y][x])
  {
    FittedPath(m, points, n, g, SolveS(g) - SolveT(g), SolveT(g));
  }

  /** A cell whose fitted inverse depth is `1/d` reads back the depth `d`. */
  lemma CellAtTarget(aParam: real, bParam: real, rel: real, d: real)
    requires d != 0.0 && InverseDepth(aParam, bParam, rel) == 1.0 / d
    ensures CellDepth(aParam, bParam, rel) == Finite(d)
  {
    var q := 1.0 / d;
    assert q * d == 1.0;
    var w := 1.0 / q;
    assert w * q == 1.0;
    MulCancel(w, d, q);
  }

  /**
   * The two-point square system read back through the affine map: at each point's
   * relative depth the cell holds that point's depth.
   */
  lemma TwoPointCells(g: Normal, r0: real, r1: real, d0: real, d1: real)
    requires d0 != 0.0 && d1 != 0.0
    requires g == SquareNormal(r0, 1.0 - r0, r1, 1.0 - r1, 1.0 / d0, 1.0 / d1) && Det(g) != 0.0
    ensures CellDepth(SolveS(g) - SolveT(g), SolveT(g), r0) == Finite(d0)
    ensures CellDepth(SolveS(g) - SolveT(g), SolveT(g), r1) == Finite(d1)
  {
    var s, t := SolveS(g), SolveT(g);
    TwoPointExactFit(g, r0, r1, 1.0 / d0, 1.0 / d1);
    CellAtTarget(s - t, t, r0, d0);
    CellAtTarget(s - t, t, r1, d1);
  }

  /**
   * Two known points whose normal matrix is not near singular: the output at each
   * point's pixel is that point's own depth.
   */
  lemma TwoPointRoundTrip(m: seq<seq<real>>, p0: KnownPoint, p1: KnownPoint)
    requires WellFormed(m)
    requires Usable(m, p0) && Usable(m, p1)
    requires MapMax(None, m).Some? && MapMax(None, m).value > 0.0
    requires var n := Normalize(m, MapMax(None, m).value);
      !NearSingular(Det(NormalOf(Rels(n, [p0, p1]), Targets([p0, p1]))))
    ensures AbsoluteDepth(m, [p0, p1])[p0.y][p0.x] == Finite(p0.realDepth)
    ensures AbsoluteDepth(m, [p0, p1])[p1.y][p1.x] == Finite(p1.realDepth)
  {
    var points := [p0, p1];
    var n := Normalize(m, MapMax(None, m).value);
    var rels := Rels(n, points);
    var ys := Targets(points);
    var g := NormalOf(rels, ys);
    assert Det(g) != 0.0;
    assert rels[0] == n[p0.y][p0.x] && rels[1] == n[p1.y][p1.x];
    assert ys[0] == 1.0 / p0.realDepth && ys[1] == 1.0 / p1.realDepth;
    TwoPointNormal(g, rels, ys);
    TwoPointCells(g, rels[0], rels[1], p0.realDepth, p1.realDepth);
    FittedCell(m, points, n, g, p0.y, p0.x);
    FittedCell(m, points, n, g, p1.y, p1.x);
  }
}
