# Fetch analysis and Gaussian contrast stretch, modelled in Dafny

This project models two raster transforms and proves properties of them.

**Fetch analysis** (WhiteboxTools `FetchAnalysis`). For every data cell of an elevation grid it
marches a ray upwind along an azimuth and reports the signed fetch distance:
- a positive value is the distance to the nearest cell that rises above the ray, whose height grows by
  `height_increment` per unit of distance;
- otherwise a sentinel `-max(last distances)` marks that no such cell was found before the grid edge.

The model covers:
- the geometry set up once per run: azimuth sanitising, line slope, step signs and the (geographic) cell size;
- the per-cell kernel: a walk across vertical grid lines, a walk across horizontal grid lines, and the
  combine rule;
- the per-row buffer;
- the static row partition `r % P == tid` over the workers;
- the collector that writes each received `(row, data)` message into the output.

**Gaussian contrast stretch** (Whitebox GAT plugin `GaussianStretch`). Each data cell is mapped to the
output bin whose Gaussian reference CDF value matches the cell's own CDF value. The model covers:
- the 50000-bin histogram with Java's `(int)` cast and its upper clamp;
- the image CDF;
- the cumulative, normalised reference CDF;
- the decile table `startingVals`;
- the inverse-CDF search that is run per cell.

Modules:
- `Common`: option type, min/max, sums and order predicates.
- `Grid`: the raster and its total cell accessor, plus Rust's `as isize`.
- `Geometry`: the per-run setup.
- `RayMarch`: the kernel.
- `FetchRows`: row buffer, partition and collector.
- `StretchHistogram`, `StretchCdf`, `StretchLookup`: the three stages of the stretch.
- `Stretch`: the stretch as one run.

How the model represents the source:
- Floating-point numbers are `real`.
- `tan`, `cos`, `to_radians` and `sqrt` are uninterpreted function parameters.
- A cell read through the raster library goes through `Raster.At`. It answers the stored value inside
  the grid, and a parameter `outside` anywhere else, because the library's behaviour off the grid is not
  part of this model.

Behaviour of the code that the model keeps as written:
- Sanitising the azimuth does not keep the line slope away from zero. The azimuths 90 and 270 pass
  through unchanged and get `tan(0)` (`Geometry.EastWestSlopeIsTanZero`). With a zero slope the
  horizontal walk divides by zero. IEEE arithmetic gives an infinite column, which fails the column
  test, so that walk stops at once. The model states this as an explicit `Outside` case
  (`RayMarch.HorizontalCrossing`, `RayMarch.EastWestHorizontalWalkStops`).
- The geographic correction uses `(north - south) / 2`, which is half the extent of the grid, not its
  middle latitude (`Geometry.CellSizeUsesHalfExtent`).
- The vertical walk interpolates between rows `floor(y)` and `floor(y) - y_step`, and the second row can
  lie off the grid. The horizontal walk reads its second sample at row `y as isize`, where `y <= 0`.
  These reads are modelled as written, through `Raster.At`.
- A distance of zero doubles as "no obstacle found" (`RayMarch.ZeroDistanceObstacleIsLost`). A cell whose
  first crossing on both walks is off the grid gets `-0`, which is 0 and not a negative value
  (`RayMarch.EdgeCellGetsZero`).
- The stretch carries `xVal` from one data cell to the next. For a normalised reference CDF the carried
  value is never the answer (`StretchLookup.SearchNeverCarries`).

## Model

| member | source | states |
|---|---|---|
| Geometry.SanitizeAzimuth | whitebox_tools/src/tools/terrain_analysis/fetch_analysis.rs:196-207 | the result lies in (0, 360) and is never 180; values already there pass unchanged; 0 becomes 0.1, 180 becomes 179.9, 360 becomes 359.9, and anything below 0 or above 360 becomes 0.1 |
| Geometry.SlopeAngle | whitebox_tools/src/tools/terrain_analysis/fetch_analysis.rs:208-213 | for a sanitised azimuth the slope angle lies strictly between -90 and 90 degrees, and it is zero exactly for azimuths 90 and 270 |
| Geometry.LineSlope | whitebox_tools/src/tools/terrain_analysis/fetch_analysis.rs:208-213 | due east and due west (90, 270) the slope is the tangent of 0 degrees; at 45 and 225 it is the tangent of 45 degrees |
| Geometry.OppositeAzimuthsShareSlope | whitebox_tools/src/tools/terrain_analysis/fetch_analysis.rs:208-213 | an azimuth in [0, 180) and its opposite 180 degrees on get the same line slope, since both describe the same line |
| Geometry.EastWestSlopeIsTanZero | whitebox_tools/src/tools/terrain_analysis/fetch_analysis.rs:196-213 | azimuths 90 and 270 survive sanitising and get the tangent of 0 degrees as their line slope |
| Geometry.StepSigns | whitebox_tools/src/tools/terrain_analysis/fetch_analysis.rs:228-242 | both steps are -1 or 1; x_step is 1 exactly when the azimuth is at most 180; y_step is 1 exactly when the azimuth is in (0, 90] or above 270 |
| Geometry.CellSize | whitebox_tools/src/tools/terrain_analysis/fetch_analysis.rs:219-226 | a planar grid's cell size lies between the two resolutions (and is the resolution when they agree); a geographic grid whose correction latitude is not a latitude gets the same bounds |
| Geometry.CellSizeGeographicScale | whitebox_tools/src/tools/terrain_analysis/fetch_analysis.rs:219-226 | a geographic grid gets the planar cell size multiplied by 113200 times the cosine of the correction latitude when that latitude lies in [-90, 90], and the planar size unchanged otherwise |
| Geometry.CellSizeIgnoresBandPosition | whitebox_tools/src/tools/terrain_analysis/fetch_analysis.rs:221-224 | moving both the north and the south bound by the same amount does not change the corrected cell size |
| Geometry.CellSizeUsesHalfExtent | whitebox_tools/src/tools/terrain_analysis/fetch_analysis.rs:221-224 | a grid from 40N to 50N is corrected with the cosine of 5 degrees |
| Geometry.Setup | whitebox_tools/src/tools/terrain_analysis/fetch_analysis.rs:196-242 | the setup yields unit steps whose signs follow the sanitised azimuth, the slope of that azimuth and the cell size |
| Grid.AsIsize | whitebox_tools/src/tools/terrain_analysis/fetch_analysis.rs:296 | the cast truncates toward zero: it is the floor for non-negative values and the ceiling for negative ones |
| RayMarch.VerticalCrossing | whitebox_tools/src/tools/terrain_analysis/fetch_analysis.rs:276-300 | a vertical-walk iteration samples exactly when the column and the crossing's row coordinate are on the grid, and it is never clipped; the sample lies between the values at rows `floor(y)` and `floor(y) - y_step` of that column, whether or not the second row is on the grid, and equals the first at a whole row |
| RayMarch.VerticalNeighbourOffGrid | whitebox_tools/src/tools/terrain_analysis/fetch_analysis.rs:296-300 | with `y_step == 1`, a crossing on the grid whose row coordinate lies in [0, 1) is sampled, and is interpolated towards row -1, i.e. between the first row's value and the raster's off-grid answer |
| RayMarch.DistanceSymmetric | whitebox_tools/src/tools/terrain_analysis/fetch_analysis.rs:291-294 | the distance of a crossing (`sqrt` of the squared offsets scaled by the cell size) depends only on the size of each offset: flipping the sign of either offset or swapping the two leaves it unchanged |
| RayMarch.HorizontalCrossing | whitebox_tools/src/tools/terrain_analysis/fetch_analysis.rs:316-343 | a zero line slope ends the walk; a crossing is not off the grid exactly when the slope is non-zero, its row -y is a grid row and its x lies inside the columns; it is clipped exactly when the neighbour column `floor(x) + x_step` is off the grid; a sample lies between the values at row -y, column `floor(x)` and row y, column `floor(x) + x_step`, and whenever the crossing's row -y is greater than 0 that second read, at the negative row y, is the raster's off-grid answer |
| RayMarch.EastWestHorizontalWalkStops | whitebox_tools/src/tools/terrain_analysis/fetch_analysis.rs:313-326 | at azimuth 90 or 270, given a tangent that is 0 at 0 degrees, the horizontal walk ends at the boundary on its first iteration and keeps the vertical walk's `dist` |
| RayMarch.Limit | whitebox_tools/src/tools/terrain_analysis/fetch_analysis.rs:276-278 | the stepped coordinate has left the grid after at most `columns` iterations of the vertical walk and at most `rows` of the horizontal walk, and the crossing there is off the grid |
| RayMarch.Crossings | whitebox_tools/src/tools/terrain_analysis/fetch_analysis.rs:276-300 | the crossings of one walk, iterations 1 to the limit, in order, ending with one off the grid |
| RayMarch.Walk | whitebox_tools/src/tools/terrain_analysis/fetch_analysis.rs:302-305 | the walk stops at the first crossing that is off the grid, clipped, or passes `z >= current + dist * height_increment`; every earlier crossing was sampled and failed the test; it ends at an obstacle exactly when the stopping crossing was sampled, at that crossing's distance; and the shared `dist` holds the last distance computed |
| RayMarch.VerticalWalk | whitebox_tools/src/tools/terrain_analysis/fetch_analysis.rs:271-308 | the vertical walk, starting with `dist = 0`, runs at most `columns` iterations |
| RayMarch.HorizontalWalk | whitebox_tools/src/tools/terrain_analysis/fetch_analysis.rs:310-354 | the horizontal walk runs at most `rows` iterations; when its first crossing is off the grid it ends at the boundary and leaves `dist` as the vertical walk left it |
| RayMarch.Combine | whitebox_tools/src/tools/terrain_analysis/fetch_analysis.rs:346-363 | two obstacles at positive distances give the nearer one; one obstacle at a non-zero distance gives its distance; with no obstacle (or only zero-distance ones), and also when the horizontal walk finds an obstacle at distance 0 after the vertical walk found one, the result is minus the larger of the two last distances |
| RayMarch.ZeroDistanceObstacleIsLost | whitebox_tools/src/tools/terrain_analysis/fetch_analysis.rs:346-359 | a horizontal obstacle at distance 0 discards a vertical obstacle at distance 5, and the result is the sentinel -5 |
| RayMarch.FetchDistance | whitebox_tools/src/tools/terrain_analysis/fetch_analysis.rs:264-365 | when both walks reach the boundary, the fetch distance is minus the larger of their last distances |
| RayMarch.EdgeCellGetsZero | whitebox_tools/src/tools/terrain_analysis/fetch_analysis.rs:356-363 | a cell whose first crossing on both walks is off the grid gets 0 |
| RayMarch.LastDistanceNonNegative | whitebox_tools/src/tools/terrain_analysis/fetch_analysis.rs:310 | with positive crossing distances, a walk started with a non-negative `dist` leaves a non-negative one |
| RayMarch.FetchSign | whitebox_tools/src/tools/terrain_analysis/fetch_analysis.rs:356-364 | with positive crossing distances, the fetch distance is positive exactly when a walk met an obstacle, and is then the nearer obstacle's distance; otherwise it is minus the larger last distance, so it is at most 0 |
| RayMarch.WalkStopsNoEarlier | whitebox_tools/src/tools/terrain_analysis/fetch_analysis.rs:302-305 | raising the height increment never makes a walk stop earlier, and a walk that still meets an obstacle also met one at the lower increment |
| RayMarch.WalkObstacleNoFarther | whitebox_tools/src/tools/terrain_analysis/fetch_analysis.rs:345-350 | if distances grow along the walk, the obstacle met at a higher increment is no nearer than the one met at a lower increment |
| RayMarch.FetchMonotoneInHeightIncrement | whitebox_tools/src/tools/terrain_analysis/fetch_analysis.rs:302-363 | with positive and growing distances, a positive fetch distance at a higher increment implies a positive one at the lower increment that is no greater |
| FetchRows.ComputeRow | whitebox_tools/src/tools/terrain_analysis/fetch_analysis.rs:263-366 | the row buffer has `columns` entries; nodata cells stay nodata; every data cell holds its fetch distance |
| FetchRows.WorkerRows | whitebox_tools/src/tools/terrain_analysis/fetch_analysis.rs:262 | worker `tid` visits, from row `lo` on, each row r in [lo, rows) with `r % P == tid` exactly once and no other row |
| FetchRows.SentRows | whitebox_tools/src/tools/terrain_analysis/fetch_analysis.rs:246-262 | workers `tid` to P-1 together send each grid row whose remainder modulo P is at least `tid` exactly once, and no other row |
| FetchRows.WorkerRowsAscending | whitebox_tools/src/tools/terrain_analysis/fetch_analysis.rs:262 | a worker's rows are in range and strictly ascending |
| FetchRows.AllRowsSentOnce | whitebox_tools/src/tools/terrain_analysis/fetch_analysis.rs:246-262 | the partition is exact: over all P workers the rows sent are 0 to rows-1, each once, and there are `rows` messages, which is the number the collector receives |
| FetchRows.Collect | whitebox_tools/src/tools/terrain_analysis/fetch_analysis.rs:373-375 | a row no message carries keeps its initial content; a row some message carries holds the data of the last such message |
| FetchRows.CollectRows | whitebox_tools/src/tools/terrain_analysis/fetch_analysis.rs:373-375 | the receive loop writes each message at its row index and computes the same grid as `Collect` |
| FetchRows.CollectFunctional | whitebox_tools/src/tools/terrain_analysis/fetch_analysis.rs:367-375 | when every message carries the buffer its row should hold, each row some message carries ends up with that buffer, whatever the order and even with repeats |
| FetchRows.CollectOrderIndependent | whitebox_tools/src/tools/terrain_analysis/fetch_analysis.rs:373-375 | two arrival orders of consistent messages that cover the same rows give the same output grid |
| FetchRows.SentMessagesCoverGrid | whitebox_tools/src/tools/terrain_analysis/fetch_analysis.rs:246-367 | every message the workers send carries its row of the fetch grid, and every row is carried by some message |
| FetchRows.ReorderKeepsShape | whitebox_tools/src/tools/terrain_analysis/fetch_analysis.rs:367-374 | a reordering of the messages keeps them consistent and covers the same rows |
| FetchRows.CollectedOutputIsFetchGrid | whitebox_tools/src/tools/terrain_analysis/fetch_analysis.rs:246-375 | whatever order the channel delivers the workers' messages in, the collected output is the fetch grid |
| StretchHistogram.Divide | ImageProcessingTools/plugins/GaussianStretch.java:216 | the quotient is finite exactly for a non-zero divisor, and then multiplied by the divisor gives back the dividend; it is NaN exactly for 0/0, and an infinity carries the dividend's sign |
| StretchHistogram.JavaInt | ImageProcessingTools/plugins/GaussianStretch.java:216 | Java's `(int)` cast: NaN gives 0; the infinities and out-of-range values saturate at the int bounds; anything else truncates toward zero |
| StretchHistogram.BinSize | ImageProcessingTools/plugins/GaussianStretch.java:200-203 | the 50000 bins times the bin size span exactly the value range; the bin size is non-negative for an ordered range and zero exactly for a flat raster |
| StretchHistogram.BinIndex | ImageProcessingTools/plugins/GaussianStretch.java:203-217 | the bin is at most 49999; for a non-zero bin size it is negative exactly when the quotient is at most -1, 0 for a quotient in (-1, 1), the quotient's floor for a quotient in [0, 49999), and the last bin from 49999 on; for a zero bin size it is 0 at the minimum, the last bin above it, and negative below it |
| StretchHistogram.BinIndexInRange | ImageProcessingTools/plugins/GaussianStretch.java:201-217 | a value between the minimum and the maximum gets a bin in [0, 49999], also when the two are equal |
| StretchHistogram.BinIndexMonotone | ImageProcessingTools/plugins/GaussianStretch.java:216-217 | for a non-negative bin size, larger values never fall in lower bins |
| StretchHistogram.BuildHistogram | ImageProcessingTools/plugins/GaussianStretch.java:210-219 | the pass fails exactly when some data cell's bin is negative; otherwise it counts the data cells, each bin holds the number of data cells in it (the histogram `Histogram`), and the bins sum to the cell count |
| StretchCdf.PrefixSums | ImageProcessingTools/plugins/GaussianStretch.java:230-233 | the in-place accumulation loop leaves in entry i the sum of entries 0 to i |
| StretchCdf.AccumulatedShape | ImageProcessingTools/plugins/GaussianStretch.java:230-233 | the running sums of non-negative entries never decrease, lie between 0 and the total, and end at the total |
| StretchCdf.AccumulatedStrict | ImageProcessingTools/plugins/GaussianStretch.java:252-254 | the running sums of positive weights strictly increase and are positive |
| StretchCdf.Cdf | ImageProcessingTools/plugins/GaussianStretch.java:229-237 | the CDF is undefined exactly when there are no data cells; for a non-negative histogram it never decreases; when the histogram sums to the cell count, every entry lies in [0, 1] and the last is 1 |
| StretchCdf.ComputeCdf | ImageProcessingTools/plugins/GaussianStretch.java:229-237 | the accumulate-then-divide loops compute `Cdf` |
| StretchCdf.ReferenceCdf | ImageProcessingTools/plugins/GaussianStretch.java:241-258 | for positive weights the reference CDF fails exactly when there is no output bin; otherwise it is strictly increasing, every entry lies in (0, 1], and the last is 1 |
| StretchCdf.ComputeReferenceCdf | ImageProcessingTools/plugins/GaussianStretch.java:252-258 | the accumulate-then-divide loops compute `ReferenceCdf` |
| StretchLookup.ScanStarts | ImageProcessingTools/plugins/GaussianStretch.java:263-295 | after the loop, decile k holds the largest index whose value passes its test (`< k/10`, or `<= 1` for k = 10), or keeps its old entry if no value passes; entry 0 is untouched |
| StretchLookup.StartingValues | ImageProcessingTools/plugins/GaussianStretch.java:261-295 | every table entry is an index of the reference CDF (0 for an empty one); what each entry is is `StartingValuesTable` |
| StretchLookup.StartingValuesTable | ImageProcessingTools/plugins/GaussianStretch.java:261-295 | entry 0 of the table is 0; entry k is the largest passing index or 0; for a CDF that ends at most at 1, entry 10 is the last index |
| StretchLookup.Decile | ImageProcessingTools/plugins/GaussianStretch.java:309 | for a CDF value in [0, 1] the decile lies in 0 to 10, is the floor of ten times the value (`j/10 <= p < (j+1)/10`), and is 10 exactly when the value is 1 |
| StretchLookup.Search | ImageProcessingTools/plugins/GaussianStretch.java:310-322 | if some value from the start index on exceeds pVal, the answer is the index before the first one (or that index when it is 0); otherwise the answer is the last index equal to pVal, or the carried value if there is none; so it is always an index or the carried value, and an index when some value exceeds pVal |
| StretchLookup.Lookup | ImageProcessingTools/plugins/GaussianStretch.java:309-322 | one cell's lookup, starting at the table entry of the value's decile, answers an index of the reference CDF or the carried value, and an index whenever some value from that start on exceeds the cell's CDF value (that it agrees with the search from 0 is `LookupMatchesFullSearch`) |
| StretchLookup.SearchSkip | ImageProcessingTools/plugins/GaussianStretch.java:310-322 | starting the search later, past values below pVal only, does not change the answer |
| StretchLookup.SearchNeverCarries | ImageProcessingTools/plugins/GaussianStretch.java:299-322 | against a normalised, non-decreasing reference CDF the answer does not depend on the carried value, and it is an index of the reference CDF |
| StretchLookup.LookupMatchesFullSearch | ImageProcessingTools/plugins/GaussianStretch.java:309-322 | starting at the decile's table entry gives the same answer as searching from index 0 |
| StretchLookup.SearchMonotone | ImageProcessingTools/plugins/GaussianStretch.java:310-322 | a larger CDF value never maps to a lower output bin |
| Stretch.StretchCells | ImageProcessingTools/plugins/GaussianStretch.java:298-325 | nodata cells are not written and keep the nodata value; each data cell gets the full-search answer for its bin's CDF value, which lies in [0, numOutputBins - 1] |
| Stretch.CellBinMonotone | ImageProcessingTools/plugins/GaussianStretch.java:306-322 | of two data cells, the one with the larger value never gets the lower output bin |
| Stretch.GaussianStretch | ImageProcessingTools/plugins/GaussianStretch.java:200-325 | the run fails exactly when a data cell's bin is negative or there is no output bin; otherwise nodata cells stay nodata; each data cell gets the search from index 0 of the reference CDF for the image CDF value of its own bin, the CDF being that of the histogram of all data cells; those bins lie in [0, numOutputBins - 1]; and, when the minimum is at most the maximum, the mapping preserves order |

## Left out

- Argument parsing, tool metadata, file I/O, the progress output, the plugin host and its cancel and exception
  plumbing: none of it is part of the transforms.
- Threads, `Arc`, the `mpsc` channel and `num_cpus`. The workers are modelled by the rows they send
  (`FetchRows.SentRows`), and the channel by an arbitrary reordering of those messages. How many
  threads exist, and when they run, is left open: any `P >= 1` is allowed.
- The raster library's answer for a read off the grid is the parameter `outside` of `Raster.At`. The
  output grid's initial content is a parameter of the collector.
- IEEE-754 arithmetic. Reals are exact: there is no rounding, no overflow to infinity and no underflow.
  `tan`, `cos`, `to_radians` and `sqrt` are uninterpreted, so no property relies on their values beyond the hypotheses listed below and the tangent of 0 assumed by `RayMarch.EastWestHorizontalWalkStops`.
- RayMarch.FetchSign and RayMarch.LastDistanceNonNegative assume that every computed crossing distance is
  positive (`PositiveDistances`). RayMarch.FetchMonotoneInHeightIncrement also assumes that the distances
  grow along each walk (`GrowingDistances`). Both hold with exact arithmetic for a non-zero cell size. In
  floating point the squares under the square root can underflow, so they are stated as hypotheses.
- Grid.AsIsize: the saturation of Rust's float-to-integer cast at the `isize` bounds is not modelled. Every
  cast in the kernel applies to a value whose magnitude is below the row or column count (a point inside
  the grid, or the row `y <= 0` of the second read on a horizontal line at
  whitebox_tools/src/tools/terrain_analysis/fetch_analysis.rs:342), so the saturation is never reached.
- The `isize` row and column arithmetic is unbounded here. Grids large enough to overflow it are out of scope.
- StretchHistogram.BinIndex: a finite quotient too large for a double (which would become an infinity)
  is not modelled. The saturating cast covers it with the same result.
- The stretch visits cells row by row. The model takes the cells as one row-major sequence. The
  histogram, the CDF and the per-cell lookup do not depend on the row structure.
- The Gaussian weights `Math.pow(Math.E, -x*x/2) / sqrt(2*pi)` are a given sequence of positive reals,
  with one weight per output bin. The abscissa formula is therefore not modelled, including its 0/0 for a
  single output bin. Two cases follow:
  - With one output bin, that 0/0 makes the reference CDF NaN. Every lookup then answers the initial
    `xVal`, which is 0. The positive-weight model also answers 0 for every data cell.
  - A negative number of output bins fails when the array is allocated. A sequence cannot have negative
    length, so this case is left out.
- `numCells` is an unbounded counter. The overflow of Java's `int` beyond 2^31 - 1 data cells is out of scope.
- The decimal thresholds 0.1 to 0.9 of the decile table are exact tenths here, not the nearest doubles.
