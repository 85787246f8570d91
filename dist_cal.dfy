/** dist_Cal.kt: distance to, and direction of, one externally chosen target box. */
module DistCal {
  import opened Common
  import opened StridedScan

  /** The default stride of the sampling grid. */
  const DefaultGridSize: int := 3

  /**
   * dist_Cal: the smallest depth on the strided grid inside the box, with the
   * box's sector; null exactly when the grid visits no pixel. There is no safe-map
   * test and no cutoff: every visited pixel can be the minimum.
   */
  method DistCal(depthMap: seq<seq<real>>, bbox: seq<int>, gridSize: int) returns (r: Option<(real, Sector)>)
    requires Fits(depthMap, AnyPixel)
    requires |bbox| >= 4 && Inside(depthMap, BoxOf(bbox))
    requires gridSize > 0
    ensures r.None? <==> BoxOf(bbox).y1 >= BoxOf(bbox).y2 || BoxOf(bbox).x1 >= BoxOf(bbox).x2
    ensures r.Some? ==>
      var b := BoxOf(bbox);
      exists i, j :: i in Steps(b.y1, b.y2, gridSize) && j in Steps(b.x1, b.x2, gridSize) && depthMap[i][j] == r.value.0
    ensures r.Some? ==>
      var b := BoxOf(bbox);
      forall i, j :: i in Steps(b.y1, b.y2, gridSize) && j in Steps(b.x1, b.x2, gridSize) ==> r.value.0 <= depthMap[i][j]
    ensures r.Some? ==> r.value.1 == BoxSector(BoxOf(bbox), |depthMap[0]|)
  {
    var b := BoxOf(bbox);
    var minDistance := ScanMin(depthMap, AnyPixel, b, gridSize);
    AnyPixelReadings(depthMap, b, gridSize);
    if minDistance.None? {
      r := None;
    } else {
      var side := SectorOf(KDiv(b.x1 + b.x2, 2), |depthMap[0]|);
      r := Some((minDistance.value, side));
      var d := minDistance.value;
      assert d in Readings(depthMap, AnyPixel, b, gridSize);
      forall i, j | i in Steps(b.y1, b.y2, gridSize) && j in Steps(b.x1, b.x2, gridSize)
        ensures d <= depthMap[i][j]
      {
        assert depthMap[i][j] in Readings(depthMap, AnyPixel, b, gridSize);
      }
    }
  }
}
