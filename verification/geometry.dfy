/** Geometry set up once per fetch run: the sanitised azimuth, the slope of
    the ray in row/column space, the planar cell size and the signs of the
    grid-line steps. */
module Geometry {
  import opened Common

  /** The transcendental functions the setup calls. They are left
      uninterpreted: `toRadians` stands for `f64::to_radians`, `tan` and
      `cos` for the floating-point tangent and cosine. */
  datatype Transcendentals = Transcendentals(tan: real -> real, cos: real -> real, toRadians: real -> real)

  /** What every worker captures: the ray's slope, the cell size and the
      signed unit steps of the two grid-line walks. */
  datatype RayGeometry = RayGeometry(lineSlope: real, cellSize: real, xStep: int, yStep: int)

  predicate UnitSteps(geo: RayGeometry)
  {
    geo.xStep in {-1, 1} && geo.yStep in {-1, 1}
  }

  /** An azimuth the kernel accepts: strictly inside (0, 360) and not 180. */
  predicate Sanitised(azimuth: real)
  {
    0.0 < azimuth < 360.0 && azimuth != 180.0
  }

  /** The four successive corrections applied to the user's azimuth. */
  function SanitizeAzimuth(azimuth: real): (a: real)
    ensures Sanitised(a)
    ensures Sanitised(azimuth) ==> a == azimuth
    ensures azimuth == 0.0 ==> a == 0.1
    ensures azimuth == 180.0 ==> a == 179.9
    ensures azimuth == 360.0 ==> a == 359.9
    ensures azimuth < 0.0 || azimuth > 360.0 ==> a == 0.1
  {
    var a1 := if azimuth > 360.0 || azimuth < 0.0 then 0.1 else azimuth;
    var a2 := if a1 == 0.0 then 0.1 else a1;
    var a3 := if a2 == 180.0 then 179.9 else a2;
    if a3 == 360.0 then 359.9 else a3
  }

  /** Sanitising twice changes nothing more than sanitising once. */
  lemma SanitizeIdempotent(azimuth: real)
    ensures SanitizeAzimuth(SanitizeAzimuth(azimuth)) == SanitizeAzimuth(azimuth)
  {
  }

  /** The angle in degrees whose tangent is the line slope. */
  function SlopeAngle(azimuth: real): (degrees: real)
    ensures Sanitised(azimuth) ==> -90.0 < degrees < 90.0
    ensures degrees == 0.0 <==> azimuth == 90.0 || azimuth == 270.0
    ensures azimuth < 180.0 ==> degrees + azimuth == 90.0
    ensures azimuth >= 180.0 ==> degrees + azimuth == 270.0
  {
    if azimuth < 180.0 then 90.0 - azimuth else 270.0 - azimuth
  }

  /** The slope of the ray's line: the tangent of the slope angle. */
  function LineSlope(azimuth: real, t: Transcendentals): (m: real)
    ensures azimuth == 90.0 || azimuth == 270.0 ==> m == t.tan(t.toRadians(0.0))
    ensures azimuth == 45.0 || azimuth == 225.0 ==> m == t.tan(t.toRadians(45.0))
  {
    t.tan(t.toRadians(SlopeAngle(azimuth)))
  }

  /** An azimuth and its opposite describe the same line: azimuths 180
      degrees apart get the same slope. */
  lemma OppositeAzimuthsShareSlope(azimuth: real, t: Transcendentals)
    requires 0.0 <= azimuth < 180.0
    ensures LineSlope(azimuth + 180.0, t) == LineSlope(azimuth, t)
  {
  }

  /** Sanitising does not keep the slope away from zero: due east and due
      west pass through unchanged and get the tangent of zero degrees. */
  lemma EastWestSlopeIsTanZero(t: Transcendentals)
    ensures SanitizeAzimuth(90.0) == 90.0 && SanitizeAzimuth(270.0) == 270.0
    ensures LineSlope(90.0, t) == t.tan(t.toRadians(0.0))
    ensures LineSlope(270.0, t) == t.tan(t.toRadians(0.0))
  {
  }

  /** The quadrant table of unit steps. */
  function StepSigns(azimuth: real): (steps: (int, int))
    ensures steps.0 in {-1, 1} && steps.1 in {-1, 1}
    ensures steps.0 == 1 <==> azimuth <= 180.0
    ensures steps.1 == 1 <==> (0.0 < azimuth <= 90.0 || azimuth > 270.0)
  {
    if azimuth > 0.0 && azimuth <= 90.0 then (1, 1)
    else if azimuth <= 180.0 then (1, -1)
    else if azimuth <= 270.0 then (-1, -1)
    else (-1, 1)
  }

  /** The latitude the geographic correction feeds to the cosine. */
  function CorrectionLatitude(north: real, south: real): real
  {
    (north - south) / 2.0
  }

  /** Mean resolution, scaled by `113200 * cos(latitude)` for a geographic
      grid when the correction latitude lies in [-90, 90]. */
  function CellSize(resX: real, resY: real, geographic: bool, north: real, south: real,
                    t: Transcendentals): (size: real)
    ensures !geographic ==> Min(resX, resY) <= size <= Max(resX, resY)
    ensures !geographic && resX == resY ==> size == resX
    ensures geographic && !(-90.0 <= CorrectionLatitude(north, south) <= 90.0) ==>
              Min(resX, resY) <= size <= Max(resX, resY)
  {
    var size := (resX + resY) / 2.0;
    if geographic then
      var midLat := (north - south) / 2.0;
      if midLat <= 90.0 && midLat >= -90.0 then size * (113200.0 * t.cos(t.toRadians(midLat))) else size
    else
      size
  }

  /** A geographic grid gets the planar cell size scaled by
      `113200 * cos(latitude)` when the correction latitude is a latitude,
      and the planar cell size unchanged otherwise. */
  lemma CellSizeGeographicScale(resX: real, resY: real, north: real, south: real, t: Transcendentals)
    ensures -90.0 <= CorrectionLatitude(north, south) <= 90.0 ==>
              CellSize(resX, resY, true, north, south, t) ==
              CellSize(resX, resY, false, north, south, t) * (113200.0 * t.cos(t.toRadians(CorrectionLatitude(north, south))))
    ensures !(-90.0 <= CorrectionLatitude(north, south) <= 90.0) ==>
              CellSize(resX, resY, true, north, south, t) == CellSize(resX, resY, false, north, south, t)
  {
  }

  /** The correction depends only on the north-south extent of the grid,
      not on where that band lies: shifting both bounds leaves it unchanged. */
  lemma CellSizeIgnoresBandPosition(resX: real, resY: real, north: real, south: real, shift: real,
                                    t: Transcendentals)
    ensures CellSize(resX, resY, true, north + shift, south + shift, t) == CellSize(resX, resY, true, north, south, t)
  {
  }

  /** A grid spanning 40N to 50N is corrected with the cosine of 5 degrees,
      not of its middle latitude 45 degrees. */
  lemma CellSizeUsesHalfExtent(res: real, t: Transcendentals)
    ensures CellSize(res, res, true, 50.0, 40.0, t) == res * (113200.0 * t.cos(t.toRadians(5.0)))
  {
  }

  /** The whole setup, run once before the workers start. */
  function Setup(azimuth: real, resX: real, resY: real, geographic: bool, north: real, south: real,
                 t: Transcendentals): (geo: RayGeometry)
    ensures UnitSteps(geo)
    ensures geo.xStep == 1 <==> SanitizeAzimuth(azimuth) <= 180.0
    ensures geo.yStep == 1 <==> SanitizeAzimuth(azimuth) <= 90.0 || SanitizeAzimuth(azimuth) > 270.0
    ensures geo.lineSlope == t.tan(t.toRadians(SlopeAngle(SanitizeAzimuth(azimuth))))
    ensures geo.cellSize == CellSize(resX, resY, geographic, north, south, t)
  {
    var a := SanitizeAzimuth(azimuth);
    var steps := StepSigns(a);
    RayGeometry(LineSlope(a, t), CellSize(resX, resY, geographic, north, south, t), steps.0, steps.1)
  }
}
