/** safe_cal.kt: the per-frame hazard check against the safe-distance map. */
module SafeCal {
  import opened Common
  import opened StridedScan

  /** Readings farther than this many metres end the check with no hazard. */
  const Cutoff: real := 3.0

  /** `Triple(idx, minDist, side)`: the box index, its qualifying minimum depth and its sector. */
  datatype Hazard = Hazard(index: nat, distance: real, sector: Sector)

  /** What the inner loops of one box produce: its qualifying minimum (null if none) and its sector. */
  datatype BoxScan = BoxScan(min: Option<real>, sector: Sector)

  /** The per-box scans of `bbox`, in list order. */
  function Scans(depthMap: seq<seq<real>>, safeMap: seq<seq<Dist>>, bbox: seq<seq<int>>, gridSize: int): (s: seq<BoxScan>)
    requires gridSize > 0 && Fits(depthMap, CloserThan(safeMap))
    requires forall k :: 0 <= k < |bbox| ==> |bbox[k]| >= 4 && Inside(depthMap, BoxOf(bbox[k]))
    ensures |s| == |bbox|
    ensures forall k :: 0 <= k < |bbox| ==>
      && IsLeast(s[k].min, Readings(depthMap, CloserThan(safeMap), BoxOf(bbox[k]), gridSize))
      && s[k].sector == BoxSector(BoxOf(bbox[k]), |depthMap[0]|)
  {
    EachBoxMinLeast(depthMap, safeMap, bbox, gridSize);
    seq(|bbox|, k requires 0 <= k < |bbox| =>
      BoxScan(BoxMin(depthMap, CloserThan(safeMap), BoxOf(bbox[k]), gridSize), BoxSector(BoxOf(bbox[k]), |depthMap[0]|)))
  }

  lemma EachBoxMinLeast(depthMap: seq<seq<real>>, safeMap: seq<seq<Dist>>, bbox: seq<seq<int>>, gridSize: int)
    requires gridSize > 0 && Fits(depthMap, CloserThan(safeMap))
    requires forall k :: 0 <= k < |bbox| ==> |bbox[k]| >= 4 && Inside(depthMap, BoxOf(bbox[k]))
    ensures forall k :: 0 <= k < |bbox| ==>
      IsLeast(BoxMin(depthMap, CloserThan(safeMap), BoxOf(bbox[k]), gridSize),
              Readings(depthMap, CloserThan(safeMap), BoxOf(bbox[k]), gridSize))
  {
    forall k | 0 <= k < |bbox|
      ensures IsLeast(BoxMin(depthMap, CloserThan(safeMap), BoxOf(bbox[k]), gridSize),
                      Readings(depthMap, CloserThan(safeMap), BoxOf(bbox[k]), gridSize))
    {
      BoxMinLeast(depthMap, CloserThan(safeMap), BoxOf(bbox[k]), gridSize);
    }
  }

  /** Some box has a qualifying minimum beyond the cutoff. */
  ghost predicate SomeBeyond(scans: seq<BoxScan>) {
    exists k :: 0 <= k < |scans| && scans[k].min.Some? && scans[k].min.value > Cutoff
  }

  /** No box has a qualifying pixel. */
  ghost predicate NoneQualify(scans: seq<BoxScan>) {
    forall k :: 0 <= k < |scans| ==> scans[k].min.None?
  }

  /** `h` is the box with the smallest qualifying minimum; on a tie the earliest index wins. */
  ghost predicate IsNearest(scans: seq<BoxScan>, h: Hazard) {
    && h.index < |scans|
    && scans[h.index] == BoxScan(Some(h.distance), h.sector)
    && (forall k :: 0 <= k < |scans| && scans[k].min.Some? ==> h.distance <= scans[k].min.value)
    && (forall k :: 0 <= k < h.index && scans[k].min.Some? ==> h.distance < scans[k].min.value)
  }

  /**
   * The outer loop of isSafe from box `idx` on, `closest` being the best candidate
   * so far: the first box beyond the cutoff ends everything with an empty list.
   */
  function Select(scans: seq<BoxScan>, idx: nat, closest: Option<Hazard>): seq<Hazard>
    requires idx <= |scans|
    decreases |scans| - idx
  {
    if idx == |scans| then
      if closest.Some? then [closest.value] else []
    else
      match scans[idx].min
      case None => Select(scans, idx + 1, closest)
      case Some(d) =>
        if d > Cutoff then []
        else
          var candidate := Hazard(idx, d, scans[idx].sector);
          var closest' := if closest.None? || candidate.distance < closest.value.distance then Some(candidate) else closest;
          Select(scans, idx + 1, closest')
  }

  /** What the outer loop has established about the boxes before `idx`. */
  ghost predicate SelectInv(scans: seq<BoxScan>, idx: nat, closest: Option<Hazard>)
    requires idx <= |scans|
  {
    && (forall k :: 0 <= k < idx && scans[k].min.Some? ==> scans[k].min.value <= Cutoff)
    && (closest.None? <==> forall k :: 0 <= k < idx ==> scans[k].min.None?)
    && (closest.Some? ==>
          && closest.value.index < idx
          && closest.value.distance <= Cutoff
          && scans[closest.value.index] == BoxScan(Some(closest.value.distance), closest.value.sector)
          && (forall k :: 0 <= k < idx && scans[k].min.Some? ==> closest.value.distance <= scans[k].min.value)
          && (forall k :: 0 <= k < closest.value.index && scans[k].min.Some? ==> closest.value.distance < scans[k].min.value))
  }

  lemma {:induction false} SelectFrom(scans: seq<BoxScan>, idx: nat, closest: Option<Hazard>)
    requires idx <= |scans| && SelectInv(scans, idx, closest)
    ensures var r := Select(scans, idx, closest);
      && |r| <= 1
      && (r == [] <==> SomeBeyond(scans) || NoneQualify(scans))
      && (r != [] ==> IsNearest(scans, r[0]) && r[0].distance <= Cutoff)
    decreases |scans| - idx
  {
    if idx < |scans| {
      match scans[idx].min
      case None =>
        SelectFrom(scans, idx + 1, closest);
      case Some(d) =>
        if d > Cutoff {
          assert SomeBeyond(scans);
        } else {
          var candidate := Hazard(idx, d, scans[idx].sector);
          var closest' := if closest.None? || candidate.distance < closest.value.distance then Some(candidate) else closest;
          assert SelectInv(scans, idx + 1, closest');
          SelectFrom(scans, idx + 1, closest');
        }
    }
  }

  /**
   * isSafe's decision as written: at most one hazard; none when some box's qualifying
   * minimum exceeds 3 m (whatever the other boxes hold) or when no box qualifies;
   * otherwise the nearest box, earliest index first on a tie, at no more than 3 m.
   */
  lemma SelectSpec(scans: seq<BoxScan>)
    ensures var r := Select(scans, 0, None);
      && |r| <= 1
      && (r == [] <==> SomeBeyond(scans) || NoneQualify(scans))
      && (r != [] ==> IsNearest(scans, r[0]) && r[0].distance <= Cutoff)
  {
    SelectFrom(scans, 0, None);
  }

  /**
   * safe_cal.kt:3-42. For each box, the least depth over the strided grid among the
   * pixels strictly nearer than the safe map; a box beyond 3 m returns an empty list at
   * once; otherwise the nearest box is reported with its sector.
   */
  method IsSafe(depthMap: seq<seq<real>>, safeMap: seq<seq<Dist>>, bbox: seq<seq<int>>, gridSize: int)
    returns (r: seq<Hazard>)
    requires gridSize > 0 && Fits(depthMap, CloserThan(safeMap))
    requires forall k :: 0 <= k < |bbox| ==> |bbox[k]| >= 4 && Inside(depthMap, BoxOf(bbox[k]))
    ensures r == Select(Scans(depthMap, safeMap, bbox, gridSize), 0, None)
    ensures |r| <= 1
    ensures var scans := Scans(depthMap, safeMap, bbox, gridSize);
      r == [] <==> SomeBeyond(scans) || NoneQualify(scans)
    ensures r != [] ==>
      && IsNearest(Scans(depthMap, safeMap, bbox, gridSize), r[0])
      && r[0].distance <= Cutoff
      && r[0].sector == BoxSector(BoxOf(bbox[r[0].index]), |depthMap[0]|)
      && IsLeast(Some(r[0].distance), Readings(depthMap, CloserThan(safeMap), BoxOf(bbox[r[0].index]), gridSize))
  {
    ghost var scans := Scans(depthMap, safeMap, bbox, gridSize);
    SelectSpec(scans);
    r := SelectLoop(depthMap, safeMap, bbox, gridSize, scans);
  }

  /** The outer loop of isSafe, checked against `scans`, the per-box scans it computes on the way. */
  method SelectLoop(depthMap: seq<seq<real>>, safeMap: seq<seq<Dist>>, bbox: seq<seq<int>>, gridSize: int,
                    ghost scans: seq<BoxScan>)
    returns (r: seq<Hazard>)
    requires gridSize > 0 && Fits(depthMap, CloserThan(safeMap))
    requires forall k :: 0 <= k < |bbox| ==> |bbox[k]| >= 4 && Inside(depthMap, BoxOf(bbox[k]))
    requires |scans| == |bbox|
    requires forall k :: 0 <= k < |bbox| ==>
      scans[k] == BoxScan(BoxMin(depthMap, CloserThan(safeMap), BoxOf(bbox[k]), gridSize), BoxSector(BoxOf(bbox[k]), |depthMap[0]|))
    ensures r == Select(scans, 0, None)
  {
    var closest: Option<Hazard> := None;
    var idx := 0;
    while idx < |bbox|
      invariant 0 <= idx <= |bbox|
      invariant Select(scans, idx, closest) == Select(scans, 0, None)
    {
      var b := BoxOf(bbox[idx]);
      var minDist := ScanMin(depthMap, CloserThan(safeMap), b, gridSize);
      if minDist.Some? {
        if minDist.value > Cutoff {
          r := [];
          return;
        }
        var side := SectorOf(KDiv(b.x1 + b.x2, 2), |depthMap[0]|);
        var candidate := Hazard(idx, minDist.value, side);
        if closest.None? || candidate.distance < closest.value.distance {
          closest := Some(candidate);
        }
      }
      idx := idx + 1;
    }
    r := if closest.Some? then [closest.value] else [];
  }

  /* The cutoff applied to the nearest qualifying box only, so that a far box cannot hide a near one. */

  /** The nearest qualifying box over all boxes from `idx` on (strict `<`, so ties keep the earliest). */
  function Nearest(scans: seq<BoxScan>, idx: nat, closest: Option<Hazard>): Option<Hazard>
    requires idx <= |scans|
    decreases |scans| - idx
  {
    if idx == |scans| then closest
    else
      match scans[idx].min
      case None => Nearest(scans, idx + 1, closest)
      case Some(d) =>
        var candidate := Hazard(idx, d, scans[idx].sector);
        Nearest(scans, idx + 1, if closest.None? || d < closest.value.distance then Some(candidate) else closest)
  }

  /** The hazard check with the cutoff applied to the nearest box: a far box cannot hide a near one. */
  function SelectWithinCutoff(scans: seq<BoxScan>): seq<Hazard> {
    var c := Nearest(scans, 0, None);
    if c.Some? && c.value.distance <= Cutoff then [c.value] else []
  }

  /** What the search has established about the boxes before `idx`, without any cutoff. */
  ghost predicate NearestInv(scans: seq<BoxScan>, idx: nat, closest: Option<Hazard>)
    requires idx <= |scans|
  {
    && (closest.None? <==> forall k :: 0 <= k < idx ==> scans[k].min.None?)
    && (closest.Some? ==>
          && closest.value.index < idx
          && scans[closest.value.index] == BoxScan(Some(closest.value.distance), closest.value.sector)
          && (forall k :: 0 <= k < idx && scans[k].min.Some? ==> closest.value.distance <= scans[k].min.value)
          && (forall k :: 0 <= k < closest.value.index && scans[k].min.Some? ==> closest.value.distance < scans[k].min.value))
  }

  lemma {:induction false} NearestFrom(scans: seq<BoxScan>, idx: nat, closest: Option<Hazard>)
    requires idx <= |scans| && NearestInv(scans, idx, closest)
    ensures var c := Nearest(scans, idx, closest);
      && (c.None? <==> NoneQualify(scans))
      && (c.Some? ==> IsNearest(scans, c.value))
    decreases |scans| - idx
  {
    if idx < |scans| {
      match scans[idx].min
      case None =>
        NearestFrom(scans, idx + 1, closest);
      case Some(d) =>
        var candidate := Hazard(idx, d, scans[idx].sector);
        var closest' := if closest.None? || d < closest.value.distance then Some(candidate) else closest;
        assert NearestInv(scans, idx + 1, closest');
        NearestFrom(scans, idx + 1, closest');
    }
  }

  /**
   * With the cutoff on the nearest box: a hazard is reported exactly when some box has
   * a qualifying minimum within 3 m, and it is the nearest box.
   */
  lemma SelectWithinCutoffSpec(scans: seq<BoxScan>)
    ensures var r := SelectWithinCutoff(scans);
      && |r| <= 1
      && (r != [] <==> exists k :: 0 <= k < |scans| && scans[k].min.Some? && scans[k].min.value <= Cutoff)
      && (r != [] ==> IsNearest(scans, r[0]) && r[0].distance <= Cutoff)
  {
    NearestFrom(scans, 0, None);
  }

  /**
   * The early return loses a near hazard: with a box at 1 m listed before a box at 5 m,
   * isSafe reports nothing, while the nearest-box cutoff reports the box at 1 m.
   */
  lemma FarBoxHidesNearHazard()
    ensures var scans := [BoxScan(Some(1.0), Left), BoxScan(Some(5.0), Right)];
      && Select(scans, 0, None) == []
      && SelectWithinCutoff(scans) == [Hazard(0, 1.0, Left)]
  {
  }

  /** The 3 m boundary: a lone box at 2.9 m is a hazard, one at 3.1 m is not. */
  lemma CutoffExamples()
    ensures Select([BoxScan(Some(2.9), Front)], 0, None) == [Hazard(0, 2.9, Front)]
    ensures Select([BoxScan(Some(3.1), Front)], 0, None) == []
  {
  }
}
