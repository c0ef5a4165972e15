/** The per-cell ray-march kernel of the fetch analysis: two grid-line walks
    from one source cell and the rule that combines them into one signed
    fetch distance. */
module RayMarch {
  import opened Common
  import opened Grid
  import opened Geometry

  /** What every kernel call shares: the read-only raster, the geometry
      computed once by the setup and the square root used for distances
      (left uninterpreted). The height increment is passed on its own. */
  datatype Scene = Scene(g: Raster, geo: RayGeometry, sqrt: real -> real)

  /** The distance depends only on the size of the offset along each axis,
      not on its direction or on which axis is which. */
  lemma DistanceSymmetric(s: Scene, dx: real, dy: real)
    ensures Distance(s, -dx, dy) == Distance(s, dx, dy)
    ensures Distance(s, dx, -dy) == Distance(s, dx, dy)
    ensures Distance(s, dy, dx) == Distance(s, dx, dy)
  {
    assert Square(-dx * s.geo.cellSize) == Square(dx * s.geo.cellSize);
    assert Square(-dy * s.geo.cellSize) == Square(dy * s.geo.cellSize);
  }

  /** The vertical walk steps x across column lines; the horizontal walk
      steps y across row lines. */
  datatype Axis = VerticalLines | HorizontalLines

  /** What one iteration of a walk finds at the crossing it steps to. */
  datatype Crossing =
    | Outside                      // off the grid: the walk stops, no distance is computed
    | Clipped(dist: real)          // distance computed, but the interpolation neighbour is off the grid
    | Sampled(dist: real, z: real) // elevation z interpolated at distance dist

  /** The two terminal states of a walk. */
  datatype WalkEnd = Boundary | Obstacle(dist: real)

  /** `stop` indexes the crossing the walk stopped at; `lastDist` is what
      the `dist` variable the walks share holds once the walk is over. */
  datatype WalkResult = WalkResult(end: WalkEnd, stop: nat, lastDist: real)

  /** A source cell the kernel can be run on, under unit steps. */
  predicate Walkable(s: Scene, row: int, col: int)
  {
    0 <= row < s.g.Rows() && 0 <= col < s.g.columns && UnitSteps(s.geo)
  }

  /** y-intercept of the ray through (col, -row) in the kernel's coordinates. */
  function YIntercept(s: Scene, row: int, col: int): real
  {
    -(row as real) - s.geo.lineSlope * (col as real)
  }

  /** Euclidean distance of an offset given in cells, scaled by the cell
      size. */
  function Distance(s: Scene, dx: real, dy: real): real
  {
    s.sqrt(Square(dx * s.geo.cellSize) + Square(dy * s.geo.cellSize))
  }

  /** The row coordinate y at which the ray crosses column line x. */
  function VerticalY(s: Scene, row: int, col: int, x: int): real
  {
    (s.geo.lineSlope * (x as real) + YIntercept(s, row, col)) * -1.0
  }

  /** Iteration k of the vertical walk: x = col + k * xStep, y from the line
      equation, z interpolated between rows `floor(y)` and `floor(y) - yStep`
      of column x. Only the crossing itself is checked against the grid;
      the second row is read wherever it lies. */
  function VerticalCrossing(s: Scene, row: int, col: int, k: int): (c: Crossing)
    ensures !c.Clipped?
    ensures c.Sampled? <==>
              0 <= col + k * s.geo.xStep < s.g.columns &&
              0.0 <= VerticalY(s, row, col, col + k * s.geo.xStep) < s.g.Rows() as real
    ensures c.Sampled? ==>
              Min(s.g.At(AsIsize(VerticalY(s, row, col, col + k * s.geo.xStep)), col + k * s.geo.xStep),
                  s.g.At(AsIsize(VerticalY(s, row, col, col + k * s.geo.xStep)) - s.geo.yStep, col + k * s.geo.xStep))
              <= c.z <=
              Max(s.g.At(AsIsize(VerticalY(s, row, col, col + k * s.geo.xStep)), col + k * s.geo.xStep),
                  s.g.At(AsIsize(VerticalY(s, row, col, col + k * s.geo.xStep)) - s.geo.yStep, col + k * s.geo.xStep))
    ensures c.Sampled? && VerticalY(s, row, col, col + k * s.geo.xStep) == AsIsize(VerticalY(s, row, col, col + k * s.geo.xStep)) as real ==>
              c.z == s.g.At(AsIsize(VerticalY(s, row, col, col + k * s.geo.xStep)), col + k * s.geo.xStep)
  {
    var x := col + k * s.geo.xStep;
    if x < 0 || x >= s.g.columns then Outside
    else
      var y := VerticalY(s, row, col, x);
      if y < 0.0 || y >= s.g.Rows() as real then Outside
      else
        var dist := Distance(s, (x - col) as real, y - row as real);
        var y1 := AsIsize(y);
        var y2 := y1 + s.geo.yStep * -1;
        Sampled(dist, Lerp(s.g.At(y1, x), s.g.At(y2, x), y - y1 as real))
  }

  /** The column coordinate x at which the ray crosses row line y (row -y
      of the grid); the line slope must be non-zero. */
  function HorizontalX(s: Scene, row: int, col: int, y: int): real
    requires s.geo.lineSlope != 0.0
  {
    ((y as real) - YIntercept(s, row, col)) / s.geo.lineSlope
  }

  /** Iteration k of the horizontal walk: y = -row + k * yStep (so row -y),
      x from the line equation, z interpolated between column `floor(x)` of
      row -y and column `floor(x) + xStep` of row y. With a zero slope the
      floating-point quotient is an infinity, which fails the column test. */
  function HorizontalCrossing(s: Scene, row: int, col: int, k: int): (c: Crossing)
    ensures s.geo.lineSlope == 0.0 ==> c.Outside?
    ensures !c.Outside? ==>
              0 <= row - k * s.geo.yStep < s.g.Rows() && s.geo.lineSlope != 0.0 &&
              0.0 <= HorizontalX(s, row, col, k * s.geo.yStep - row) < s.g.columns as real
    ensures (s.geo.lineSlope != 0.0 && 0 <= row - k * s.geo.yStep < s.g.Rows() &&
             0.0 <= HorizontalX(s, row, col, k * s.geo.yStep - row) < s.g.columns as real) ==> !c.Outside?
    ensures c.Clipped? <==>
              !c.Outside? && s.geo.lineSlope != 0.0 &&
              !(0 <= AsIsize(HorizontalX(s, row, col, k * s.geo.yStep - row)) + s.geo.xStep < s.g.columns)
    ensures c.Sampled? ==> (s.geo.lineSlope != 0.0 &&
              Min(s.g.At(row - k * s.geo.yStep, AsIsize(HorizontalX(s, row, col, k * s.geo.yStep - row))),
                  s.g.At(k * s.geo.yStep - row, AsIsize(HorizontalX(s, row, col, k * s.geo.yStep - row)) + s.geo.xStep))
              <= c.z <=
              Max(s.g.At(row - k * s.geo.yStep, AsIsize(HorizontalX(s, row, col, k * s.geo.yStep - row))),
                  s.g.At(k * s.geo.yStep - row, AsIsize(HorizontalX(s, row, col, k * s.geo.yStep - row)) + s.geo.xStep)))
    ensures c.Sampled? && row - k * s.geo.yStep > 0 ==> (s.geo.lineSlope != 0.0 &&
              Min(s.g.At(row - k * s.geo.yStep, AsIsize(HorizontalX(s, row, col, k * s.geo.yStep - row))), s.g.outside)
              <= c.z <=
              Max(s.g.At(row - k * s.geo.yStep, AsIsize(HorizontalX(s, row, col, k * s.geo.yStep - row))), s.g.outside))
  {
    var y := -row + k * s.geo.yStep;
    if -y < 0 || -y >= s.g.Rows() then Outside
    else if s.geo.lineSlope == 0.0 then Outside
    else
      var x := HorizontalX(s, row, col, y);
      if x < 0.0 || x >= s.g.columns as real then Outside
      else
        var dist := Distance(s, x - col as real, (-y - row) as real);
        var x1 := AsIsize(x);
        var x2 := x1 + s.geo.xStep;
        if x2 < 0 || x2 >= s.g.columns then Clipped(dist)
        else Sampled(dist, Lerp(s.g.At(-y, x1), s.g.At(y, x2), x - x1 as real))
  }

  function CrossingAt(s: Scene, axis: Axis, row: int, col: int, k: int): Crossing
  {
    match axis
    case VerticalLines => VerticalCrossing(s, row, col, k)
    case HorizontalLines => HorizontalCrossing(s, row, col, k)
  }

  /** The iteration on which the stepped coordinate is certain to have left
      the grid: x reaches `columns` or -1, row -y reaches -1 or `rows`. */
  function Limit(s: Scene, axis: Axis, row: int, col: int): (n: nat)
    requires Walkable(s, row, col)
    ensures n >= 1
    ensures CrossingAt(s, axis, row, col, n).Outside?
    ensures axis == VerticalLines ==> n <= s.g.columns
    ensures axis == HorizontalLines ==> n <= s.g.Rows()
  {
    match axis
    case VerticalLines => if s.geo.xStep == 1 then s.g.columns - col else col + 1
    case HorizontalLines => if s.geo.yStep == 1 then row + 1 else s.g.Rows() - row
  }

  /** The crossings of iterations 1 .. Limit of one walk, in order; the
      last one is off the grid, so every walk stops within them. */
  function Crossings(s: Scene, axis: Axis, row: int, col: int): (cs: seq<Crossing>)
    requires Walkable(s, row, col)
    ensures |cs| == Limit(s, axis, row, col)
    ensures forall i :: 0 <= i < |cs| ==> cs[i] == CrossingAt(s, axis, row, col, i + 1)
    ensures cs[|cs| - 1].Outside?
  {
    seq(Limit(s, axis, row, col), i => CrossingAt(s, axis, row, col, i + 1))
  }

  /** The crossing is in the grid and fails the obstacle test
      `z >= current + dist * heightIncrement`: the walk goes on. */
  predicate Continues(c: Crossing, current: real, heightIncrement: real)
  {
    c.Sampled? && c.z < current + c.dist * heightIncrement
  }

  /** What the shared `dist` variable holds after a walk that started at
      crossing i with `last` and stopped at crossing `stop`. */
  function LastDistance(cs: seq<Crossing>, i: nat, stop: nat, last: real): real
    requires stop < |cs|
  {
    if !cs[stop].Outside? then cs[stop].dist
    else if stop <= i || cs[stop - 1].Outside? then last
    else cs[stop - 1].dist
  }

  /** The walk from crossing i on: WALKING while the crossing is sampled and
      fails the obstacle test, otherwise stopped at the boundary or at the
      obstacle. `stop` is the index of the crossing it stopped at, so the
      loop ran `stop + 1` iterations. */
  function Walk(cs: seq<Crossing>, current: real, heightIncrement: real, i: nat, last: real): (w: WalkResult)
    requires i < |cs| && cs[|cs| - 1].Outside?
    decreases |cs| - i
    ensures i <= w.stop < |cs|
    ensures forall j :: i <= j < w.stop ==> Continues(cs[j], current, heightIncrement)
    ensures !Continues(cs[w.stop], current, heightIncrement)
    ensures w.end.Obstacle? <==> cs[w.stop].Sampled?
    ensures w.end.Obstacle? ==> w.end.dist == cs[w.stop].dist
    ensures w.lastDist == LastDistance(cs, i, w.stop, last)
  {
    match cs[i]
    case Outside => WalkResult(Boundary, i, last)
    case Clipped(d) => WalkResult(Boundary, i, d)
    case Sampled(d, z) =>
      if z >= current + d * heightIncrement then WalkResult(Obstacle(d), i, d)
      else Walk(cs, current, heightIncrement, i + 1, d)
  }

  /** The vertical walk from the source cell, with `dist` starting at 0; it
      runs at most `columns` iterations. */
  function VerticalWalk(s: Scene, row: int, col: int, heightIncrement: real): (w: WalkResult)
    requires Walkable(s, row, col)
    ensures w.stop + 1 <= s.g.columns
  {
    Walk(Crossings(s, VerticalLines, row, col), s.g.At(row, col), heightIncrement, 0, 0.0)
  }

  /** The horizontal walk; `dist` still holds the vertical walk's value. It
      runs at most `rows` iterations, and when its first crossing is off the
      grid it leaves that value in place. */
  function HorizontalWalk(s: Scene, row: int, col: int, heightIncrement: real, startDist: real): (w: WalkResult)
    requires Walkable(s, row, col)
    ensures w.stop + 1 <= s.g.Rows()
    ensures HorizontalCrossing(s, row, col, 1).Outside? ==> w.end == Boundary && w.lastDist == startDist
  {
    Walk(Crossings(s, HorizontalLines, row, col), s.g.At(row, col), heightIncrement, 0, startDist)
  }

  /** The combine step. Zero doubles as "no obstacle": a walk that stops at
      an obstacle at distance 0 counts as not having found one. */
  function Combine(v: WalkResult, h: WalkResult): (r: real)
    ensures v.end.Obstacle? && h.end.Obstacle? && v.end.dist > 0.0 && h.end.dist > 0.0 ==>
              r == Min(v.end.dist, h.end.dist)
    ensures v.end.Obstacle? && v.end.dist != 0.0 && h.end.Boundary? ==> r == v.end.dist
    ensures (v.end.Boundary? || v.end.dist == 0.0) && h.end.Obstacle? && h.end.dist != 0.0 ==> r == h.end.dist
    ensures (v.end.Boundary? || v.end.dist == 0.0) && (h.end.Boundary? || h.end.dist == 0.0) ==>
              r == -Max(v.lastDist, h.lastDist)
    ensures v.end.Obstacle? && v.end.dist >= 0.0 && h.end.Obstacle? && h.end.dist == 0.0 ==>
              r == -Max(v.lastDist, h.lastDist)
  {
    var afterVertical := if v.end.Obstacle? then v.end.dist else 0.0;
    var afterHorizontal :=
      if h.end.Obstacle? && (h.end.dist < afterVertical || afterVertical == 0.0) then h.end.dist
      else afterVertical;
    if afterHorizontal == 0.0 then
      if h.lastDist > v.lastDist then -h.lastDist else -v.lastDist
    else
      afterHorizontal
  }

  /** An illustration of the zero-distance clause of `Combine`: an obstacle
      found by the horizontal walk at distance 0 wipes out the vertical
      walk's obstacle at distance 5, and the result is the sentinel -5. */
  lemma ZeroDistanceObstacleIsLost()
    ensures Combine(WalkResult(Obstacle(5.0), 3, 5.0), WalkResult(Obstacle(0.0), 1, 0.0)) == -5.0
  {
  }

  /** The fetch distance of one source cell. */
  function FetchDistance(s: Scene, row: int, col: int, heightIncrement: real): (r: real)
    requires Walkable(s, row, col)
    ensures var v := VerticalWalk(s, row, col, heightIncrement);
            var h := HorizontalWalk(s, row, col, heightIncrement, v.lastDist);
            v.end.Boundary? && h.end.Boundary? ==> r == -Max(v.lastDist, h.lastDist)
  {
    var v := VerticalWalk(s, row, col, heightIncrement);
    var h := HorizontalWalk(s, row, col, heightIncrement, v.lastDist);
    Combine(v, h)
  }

  /** A source cell whose first crossing on both walks is off the grid
      computes no distance at all and gets `-0`, which is 0, not a
      negative sentinel. */
  lemma EdgeCellGetsZero(s: Scene, row: int, col: int, heightIncrement: real)
    requires Walkable(s, row, col)
    requires VerticalCrossing(s, row, col, 1).Outside? && HorizontalCrossing(s, row, col, 1).Outside?
    ensures FetchDistance(s, row, col, heightIncrement) == 0.0
  {
    var cs := Crossings(s, VerticalLines, row, col);
    assert cs[0].Outside?;
  }

  /** The vertical walk reads its second row without a grid check: with
      `yStep == 1` a crossing in the first row interpolates towards row -1,
      so the sample lies between the first row's value and whatever the
      raster answers off the grid. */
  lemma VerticalNeighbourOffGrid(s: Scene, row: int, col: int, k: int)
    requires s.geo.yStep == 1 && 0 <= col + k * s.geo.xStep < s.g.columns && s.g.Rows() > 0
    requires 0.0 <= VerticalY(s, row, col, col + k * s.geo.xStep) < 1.0
    ensures VerticalCrossing(s, row, col, k).Sampled?
    ensures Min(s.g.At(0, col + k * s.geo.xStep), s.g.outside) <= VerticalCrossing(s, row, col, k).z
    ensures VerticalCrossing(s, row, col, k).z <= Max(s.g.At(0, col + k * s.geo.xStep), s.g.outside)
  {
    var y := VerticalY(s, row, col, col + k * s.geo.xStep);
    assert AsIsize(y) == 0;
    assert !s.g.Contains(-1, col + k * s.geo.xStep);
  }

  /** Due east and due west the line slope is the tangent of 0 degrees;
      with a tangent that is 0 there, the horizontal walk ends at its very
      first iteration and leaves the shared `dist` as the vertical walk left
      it. */
  lemma EastWestHorizontalWalkStops(g: Raster, azimuth: real, resX: real, resY: real, geographic: bool,
                                    north: real, south: real, t: Transcendentals, sqrt: real -> real,
                                    row: int, col: int, heightIncrement: real, startDist: real)
    requires azimuth == 90.0 || azimuth == 270.0
    requires t.tan(t.toRadians(0.0)) == 0.0
    requires 0 <= row < g.Rows() && 0 <= col < g.columns
    ensures var s := Scene(g, Setup(azimuth, resX, resY, geographic, north, south, t), sqrt);
            HorizontalWalk(s, row, col, heightIncrement, startDist) == WalkResult(Boundary, 0, startDist)
  {
  }

  /** Every crossing either walk computes a distance for lies at a positive
      distance. With exact arithmetic this follows from a non-zero cell size,
      since each iteration moves a whole cell along the stepped axis; in
      floating point the squares under the square root can underflow, so it
      is stated as an assumption on the computed distances. */
  ghost predicate PositiveDistances(s: Scene, row: int, col: int)
    requires Walkable(s, row, col)
  {
    forall axis: Axis, k: int :: 1 <= k <= Limit(s, axis, row, col) && !CrossingAt(s, axis, row, col, k).Outside? ==>
      CrossingAt(s, axis, row, col, k).dist > 0.0
  }

  /** Along each walk the computed distance does not shrink from one
      crossing to a later one; again exact arithmetic gives it and floating
      point is assumed to keep it. */
  ghost predicate GrowingDistances(s: Scene, row: int, col: int)
    requires Walkable(s, row, col)
  {
    forall axis: Axis, k1: int, k2: int ::
      1 <= k1 <= k2 <= Limit(s, axis, row, col) &&
      !CrossingAt(s, axis, row, col, k1).Outside? && !CrossingAt(s, axis, row, col, k2).Outside? ==>
        CrossingAt(s, axis, row, col, k1).dist <= CrossingAt(s, axis, row, col, k2).dist
  }

  /** A walk started with a non-negative `dist` leaves a non-negative one. */
  lemma LastDistanceNonNegative(s: Scene, axis: Axis, row: int, col: int, last: real, stop: nat)
    requires Walkable(s, row, col) && PositiveDistances(s, row, col) && last >= 0.0
    requires stop < Limit(s, axis, row, col)
    ensures LastDistance(Crossings(s, axis, row, col), 0, stop, last) >= 0.0
  {
  }

  /** The sign convention of the fetch distance: positive exactly when one
      of the walks stopped at an obstacle, and then the nearer obstacle's
      distance; otherwise minus the larger of the walks' last distances. */
  lemma FetchSign(s: Scene, row: int, col: int, heightIncrement: real)
    requires Walkable(s, row, col) && PositiveDistances(s, row, col)
    ensures var v := VerticalWalk(s, row, col, heightIncrement);
            var h := HorizontalWalk(s, row, col, heightIncrement, v.lastDist);
            var r := FetchDistance(s, row, col, heightIncrement);
            && (r > 0.0 <==> v.end.Obstacle? || h.end.Obstacle?)
            && (r <= 0.0 ==> r == -Max(v.lastDist, h.lastDist))
            && (v.end.Obstacle? && h.end.Obstacle? ==> r == Min(v.end.dist, h.end.dist))
            && (v.end.Obstacle? && h.end.Boundary? ==> r == v.end.dist)
            && (v.end.Boundary? && h.end.Obstacle? ==> r == h.end.dist)
  {
    var v := VerticalWalk(s, row, col, heightIncrement);
    var h := HorizontalWalk(s, row, col, heightIncrement, v.lastDist);
    LastDistanceNonNegative(s, VerticalLines, row, col, 0.0, v.stop);
    LastDistanceNonNegative(s, HorizontalLines, row, col, v.lastDist, h.stop);
  }

  /** Raising the height increment never makes a walk stop earlier, and a
      walk that still meets an obstacle met one before. */
  lemma WalkStopsNoEarlier(cs: seq<Crossing>, current: real, low: real, high: real, last: real)
    requires 0 < |cs| && cs[|cs| - 1].Outside?
    requires low <= high
    requires forall j :: 0 <= j < |cs| && cs[j].Sampled? ==> cs[j].dist >= 0.0
    ensures var w1 := Walk(cs, current, low, 0, last);
            var w2 := Walk(cs, current, high, 0, last);
            w1.stop <= w2.stop && (w2.end.Obstacle? ==> w1.end.Obstacle?)
  {
    var w1 := Walk(cs, current, low, 0, last);
    var w2 := Walk(cs, current, high, 0, last);
    forall j | 0 <= j < |cs| && Continues(cs[j], current, low)
      ensures Continues(cs[j], current, high)
    {
      assert cs[j].dist * low <= cs[j].dist * high;
    }
  }

  /** Under distances that grow along the walk, a walk under a larger
      height increment that meets an obstacle meets one no farther away
      under the smaller increment. */
  lemma WalkObstacleNoFarther(cs: seq<Crossing>, current: real, low: real, high: real, last: real)
    requires 0 < |cs| && cs[|cs| - 1].Outside?
    requires low <= high
    requires forall j :: 0 <= j < |cs| && cs[j].Sampled? ==> cs[j].dist >= 0.0
    requires forall j, k :: 0 <= j <= k < |cs| && !cs[j].Outside? && !cs[k].Outside? ==> cs[j].dist <= cs[k].dist
    ensures var w1 := Walk(cs, current, low, 0, last);
            var w2 := Walk(cs, current, high, 0, last);
            w2.end.Obstacle? ==> w1.end.Obstacle? && w1.end.dist <= w2.end.dist
  {
    WalkStopsNoEarlier(cs, current, low, high, last);
  }

  /** A larger height increment never brings a found obstacle nearer: when
      the fetch distance under the larger increment is positive, the one
      under the smaller increment is positive and no greater. */
  lemma FetchMonotoneInHeightIncrement(s: Scene, row: int, col: int, low: real, high: real)
    requires Walkable(s, row, col) && PositiveDistances(s, row, col) && GrowingDistances(s, row, col)
    requires low <= high
    ensures var r1 := FetchDistance(s, row, col, low);
            var r2 := FetchDistance(s, row, col, high);
            r2 > 0.0 ==> 0.0 < r1 <= r2
  {
    var current := s.g.At(row, col);
    var vs := Crossings(s, VerticalLines, row, col);
    var hs := Crossings(s, HorizontalLines, row, col);
    var v1 := VerticalWalk(s, row, col, low);
    var v2 := VerticalWalk(s, row, col, high);
    FetchSign(s, row, col, low);
    FetchSign(s, row, col, high);
    WalkObstacleNoFarther(vs, current, low, high, 0.0);
    WalkObstacleNoFarther(hs, current, low, high, v1.lastDist);
    WalkObstacleNoFarther(hs, current, low, high, v2.lastDist);
  }
}
