/** The Gaussian contrast stretch as one run: histogram, image CDF,
    reference CDF, decile table and the per-cell lookup, each data cell
    mapped to the output bin whose reference CDF value matches its own. */
module Stretch {
  import opened Common
  import opened StretchHistogram
  import opened StretchCdf
  import opened StretchLookup

  /** The output bin of one data cell once the decile table has been
      taken out of the picture. */
  function CellBin(z: real, minValue: real, binSize: real, cdf: seq<real>, ref: seq<real>): int
    requires |cdf| == NumBins && 0 <= BinIndex(z, minValue, binSize)
    requires forall b :: 0 <= b < |cdf| ==> 0.0 <= cdf[b] <= 1.0
  {
    Search(ref, cdf[BinIndex(z, minValue, binSize)], 0, 0)
  }

  /** The third pass: the output starts as nodata everywhere; each data
      cell gets the lookup of its bin's CDF value, with `xVal` carried from
      the previous data cell as the plugin does. */
  method StretchCells(vals: seq<real>, noData: real, minValue: real, binSize: real,
                      cdf: seq<real>, ref: seq<real>) returns (out: seq<real>)
    requires |cdf| == NumBins && BinsNonNegative(vals, noData, minValue, binSize)
    requires forall b :: 0 <= b < |cdf| ==> 0.0 <= cdf[b] <= 1.0
    requires NonDecreasing(ref) && |ref| > 0 && ref[|ref| - 1] == 1.0
    ensures |out| == |vals|
    ensures forall i :: 0 <= i < |vals| && vals[i] == noData ==> out[i] == noData
    ensures forall i :: 0 <= i < |vals| && vals[i] != noData ==>
              out[i] == CellBin(vals[i], minValue, binSize, cdf, ref) as real
    ensures forall i :: 0 <= i < |vals| && vals[i] != noData ==> 0.0 <= out[i] <= (|ref| - 1) as real
  {
    var sv := StartingValues(ref);
    out := seq(|vals|, _ => noData);
    var xVal := 0;
    var i := 0;
    while i < |vals|
      invariant 0 <= i <= |vals|
      invariant |out| == |vals|
      invariant forall c :: 0 <= c < i && vals[c] == noData ==> out[c] == noData
      invariant forall c :: 0 <= c < i && vals[c] != noData ==>
                  out[c] == CellBin(vals[c], minValue, binSize, cdf, ref) as real && 0.0 <= out[c] <= (|ref| - 1) as real
      invariant forall c :: i <= c < |vals| ==> out[c] == noData
    {
      var z := vals[i];
      if z != noData {
        var pVal := cdf[BinIndex(z, minValue, binSize)];
        LookupMatchesFullSearch(ref, pVal, xVal);
        SearchNeverCarries(ref, pVal, xVal);
        xVal := Lookup(ref, sv, pVal, xVal);
        out := out[i := xVal as real];
      }
      i := i + 1;
    }
  }

  /** The stretch preserves order: of two data cells, the one with the
      larger value never gets the lower output bin. */
  lemma CellBinMonotone(z1: real, z2: real, minValue: real, binSize: real, cdf: seq<real>, ref: seq<real>)
    requires |cdf| == NumBins && binSize >= 0.0 && z1 <= z2
    requires 0 <= BinIndex(z1, minValue, binSize)
    requires forall b :: 0 <= b < |cdf| ==> 0.0 <= cdf[b] <= 1.0
    requires NonDecreasing(cdf)
    requires NonDecreasing(ref) && |ref| > 0 && ref[|ref| - 1] == 1.0
    ensures 0 <= BinIndex(z2, minValue, binSize)
    ensures CellBin(z1, minValue, binSize, cdf, ref) <= CellBin(z2, minValue, binSize, cdf, ref)
  {
    BinIndexMonotone(z1, z2, minValue, binSize);
    var b1 := BinIndex(z1, minValue, binSize);
    var b2 := BinIndex(z2, minValue, binSize);
    SearchMonotone(ref, cdf[b1], cdf[b2]);
  }

  /** One run of the tool over the cells in row-major order. It fails
      (`None`) exactly when a data cell falls below bin 0 or there is no
      output bin. Otherwise nodata cells stay nodata and every data cell
      gets the output bin whose reference CDF value matches the CDF value of
      its own histogram bin, found by the search from index 0. */
  method GaussianStretch(vals: seq<real>, noData: real, minValue: real, maxValue: real, weights: seq<real>)
      returns (out: Option<seq<real>>)
    requires Positive(weights)
    ensures out.None? <==> !BinsNonNegative(vals, noData, minValue, BinSize(minValue, maxValue)) || |weights| == 0
    ensures out.Some? ==> |out.value| == |vals|
    ensures out.Some? ==> forall i :: 0 <= i < |vals| && vals[i] == noData ==> out.value[i] == noData
    ensures out.Some? ==> forall i :: 0 <= i < |vals| && vals[i] != noData ==>
              0.0 <= out.value[i] <= (|weights| - 1) as real
    ensures out.Some? ==> forall i :: 0 <= i < |vals| && vals[i] != noData ==>
              NumData(vals, noData) > 0 && 0 <= BinIndex(vals[i], minValue, BinSize(minValue, maxValue)) &&
              out.value[i] ==
                Search(ReferenceCdf(weights).value,
                       Cdf(Histogram(vals, noData, minValue, BinSize(minValue, maxValue)), NumData(vals, noData))
                         .value[BinIndex(vals[i], minValue, BinSize(minValue, maxValue))],
                       0, 0) as real
    ensures out.Some? && minValue <= maxValue ==>
              forall i, j ::
                (0 <= i < |vals| && 0 <= j < |vals| && vals[i] != noData && vals[j] != noData && vals[i] <= vals[j]) ==>
                  out.value[i] <= out.value[j]
  {
    var binSize := BinSize(minValue, maxValue);
    var hist, numCells := BuildHistogram(vals, noData, minValue, binSize);
    if hist.None? {
      return None;
    }
    var cdfOpt := ComputeCdf(hist.value, numCells);
    var refOpt := ComputeReferenceCdf(weights);
    if refOpt.None? {
      return None;
    }
    var ref := refOpt.value;
    var cdf: seq<real>;
    if cdfOpt.Some? {
      cdf := cdfOpt.value;
    } else {
      // No data cell: the CDF entries are 0/0 but are never read.
      NoDataCounted(vals, noData);
      cdf := seq(NumBins, _ => 0.0);
    }
    var cells := StretchCells(vals, noData, minValue, binSize, cdf, ref);
    if minValue <= maxValue {
      forall i, j | 0 <= i < |vals| && 0 <= j < |vals| && vals[i] != noData && vals[j] != noData && vals[i] <= vals[j]
        ensures cells[i] <= cells[j]
      {
        CellBinMonotone(vals[i], vals[j], minValue, binSize, cdf, ref);
      }
    }
    forall i | 0 <= i < |vals| && vals[i] != noData
      ensures NumData(vals, noData) > 0
    {
      DataCellCounted(vals, noData, i);
    }
    out := Some(cells);
  }
}
