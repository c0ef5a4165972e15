/** First pass of the Gaussian contrast stretch: every data cell is put in
    one of 50000 equal-width bins between the raster's minimum and maximum. */
module StretchHistogram {
  import opened Common

  const NumBins: int := 50000
  const IntMax: int := 0x7fff_ffff
  const IntMin: int := -0x8000_0000

  /** The IEEE quotient of two doubles, where a zero divisor gives an
      infinity or NaN. */
  datatype Quotient = Finite(q: real) | PosInf | NegInf | NaN

  function Divide(a: real, b: real): (d: Quotient)
    ensures d.Finite? <==> b != 0.0
    ensures d.Finite? ==> d.q * b == a
    ensures d.NaN? <==> a == 0.0 && b == 0.0
    ensures d.PosInf? ==> a > 0.0
    ensures d.NegInf? ==> a < 0.0
  {
    if b != 0.0 then Finite(a / b)
    else if a > 0.0 then PosInf
    else if a < 0.0 then NegInf
    else NaN
  }

  /** Java's `(int)` cast of a double: NaN becomes 0, the infinities and
      out-of-range values saturate, anything else truncates toward zero. */
  function JavaInt(d: Quotient): (n: int)
    ensures IntMin <= n <= IntMax
    ensures d.NaN? ==> n == 0
    ensures d.Finite? && IntMin as real <= d.q <= IntMax as real ==> -1.0 < d.q - n as real < 1.0
    ensures d.Finite? && d.q >= 0.0 ==> n >= 0 && (n < IntMax ==> n as real <= d.q < n as real + 1.0)
    ensures d.Finite? && d.q < 0.0 ==> n <= 0 && (n > IntMin ==> n as real - 1.0 < d.q <= n as real)
    ensures d.PosInf? ==> n == IntMax
    ensures d.NegInf? ==> n == IntMin
  {
    match d
    case NaN => 0
    case PosInf => IntMax
    case NegInf => IntMin
    case Finite(q) =>
      var t := if q >= 0.0 then q.Floor else -((-q).Floor);
      if t > IntMax then IntMax else if t < IntMin then IntMin else t
  }

  /** `(maxValue - minValue) / numBins`: the 50000 bins split the value
      range evenly, so the bin size is zero exactly for a flat raster. */
  function BinSize(minValue: real, maxValue: real): (size: real)
    ensures size * NumBins as real == maxValue - minValue
    ensures minValue <= maxValue ==> size >= 0.0
    ensures size == 0.0 <==> minValue == maxValue
  {
    (maxValue - minValue) / NumBins as real
  }

  /** The bin of a value: the cast quotient `(z - minValue) / binSize`,
      clamped from above to the last bin but not from below. */
  function BinIndex(z: real, minValue: real, binSize: real): (b: int)
    ensures b <= NumBins - 1
    ensures binSize != 0.0 ==> (b < 0 <==> (z - minValue) / binSize <= -1.0)
    ensures binSize != 0.0 && -1.0 < (z - minValue) / binSize < 1.0 ==> b == 0
    ensures binSize != 0.0 && 0.0 <= (z - minValue) / binSize < (NumBins - 1) as real ==>
              b as real <= (z - minValue) / binSize < b as real + 1.0
    ensures binSize != 0.0 && (z - minValue) / binSize >= (NumBins - 1) as real ==> b == NumBins - 1
    ensures binSize == 0.0 ==> (b == 0 <==> z == minValue) && (b < 0 <==> z < minValue)
    ensures binSize == 0.0 && z > minValue ==> b == NumBins - 1
  {
    var b := JavaInt(Divide(z - minValue, binSize));
    if b > NumBins - 1 then NumBins - 1 else b
  }

  /** A value between the raster's minimum and maximum always gets a bin,
      also when the two are equal and the division is 0/0. */
  lemma BinIndexInRange(z: real, minValue: real, maxValue: real)
    requires minValue <= z <= maxValue
    ensures 0 <= BinIndex(z, minValue, BinSize(minValue, maxValue)) <= NumBins - 1
  {
    var binSize := BinSize(minValue, maxValue);
    if binSize != 0.0 {
      assert binSize > 0.0;
      assert (z - minValue) / binSize >= 0.0 by {
        DivMonotone(0.0, z - minValue, binSize);
      }
    }
  }

  /** Larger values never fall in lower bins, also when the bin size is
      zero. */
  lemma BinIndexMonotone(z1: real, z2: real, minValue: real, binSize: real)
    requires binSize >= 0.0 && z1 <= z2
    ensures BinIndex(z1, minValue, binSize) <= BinIndex(z2, minValue, binSize)
  {
    if binSize > 0.0 {
      DivMonotone(z1 - minValue, z2 - minValue, binSize);
    }
  }

  /** With no data cell counted, every cell is nodata. */
  lemma {:induction false} NoDataCounted(vals: seq<real>, noData: real)
    requires NumData(vals, noData) == 0
    ensures forall i :: 0 <= i < |vals| ==> vals[i] == noData
  {
    if |vals| > 0 {
      NoDataCounted(vals[..|vals| - 1], noData);
      assert forall i :: 0 <= i < |vals| - 1 ==> vals[..|vals| - 1][i] == vals[i];
    }
  }

  /** The cells the passes visit: those not equal to the nodata value. */
  function NumData(vals: seq<real>, noData: real): nat
  {
    if |vals| == 0 then 0
    else NumData(vals[..|vals| - 1], noData) + (if vals[|vals| - 1] != noData then 1 else 0)
  }

  /** How many data cells fall in bin b. */
  function CountBin(vals: seq<real>, noData: real, minValue: real, binSize: real, b: int): nat
  {
    if |vals| == 0 then 0
    else
      var z := vals[|vals| - 1];
      CountBin(vals[..|vals| - 1], noData, minValue, binSize, b) +
        (if z != noData && BinIndex(z, minValue, binSize) == b then 1 else 0)
  }

  /** The histogram the first pass builds: the count of every bin. */
  function Histogram(vals: seq<real>, noData: real, minValue: real, binSize: real): seq<int>
  {
    seq(NumBins, b => CountBin(vals, noData, minValue, binSize, b))
  }

  /** Visiting cell i increments the histogram at the cell's bin when it
      is a data cell with a bin, and leaves it alone for a nodata cell. */
  lemma HistogramStep(vals: seq<real>, noData: real, minValue: real, binSize: real, i: int)
    requires 0 <= i < |vals|
    ensures vals[i] == noData ==>
              Histogram(vals[..i + 1], noData, minValue, binSize) == Histogram(vals[..i], noData, minValue, binSize)
    ensures vals[i] != noData && 0 <= BinIndex(vals[i], minValue, binSize) ==>
              var b := BinIndex(vals[i], minValue, binSize);
              var h := Histogram(vals[..i], noData, minValue, binSize);
              Histogram(vals[..i + 1], noData, minValue, binSize) == h[b := h[b] + 1]
  {
    CountStep(vals, noData, minValue, binSize, i);
  }

  /** A data cell makes the count of data cells positive. */
  lemma DataCellCounted(vals: seq<real>, noData: real, i: int)
    requires 0 <= i < |vals| && vals[i] != noData
    ensures NumData(vals, noData) > 0
  {
    if NumData(vals, noData) == 0 {
      NoDataCounted(vals, noData);
    }
  }

  /** No data cell lands below bin 0, which the histogram write would reject. */
  predicate BinsNonNegative(vals: seq<real>, noData: real, minValue: real, binSize: real)
  {
    forall i :: 0 <= i < |vals| && vals[i] != noData ==> BinIndex(vals[i], minValue, binSize) >= 0
  }

  /** Extending the visited prefix by cell i adds that cell to the data
      count, to its bin's count, and to the bin check. */
  lemma CountStep(vals: seq<real>, noData: real, minValue: real, binSize: real, i: int)
    requires 0 <= i < |vals|
    ensures NumData(vals[..i + 1], noData) == NumData(vals[..i], noData) + (if vals[i] != noData then 1 else 0)
    ensures forall b :: CountBin(vals[..i + 1], noData, minValue, binSize, b) ==
              CountBin(vals[..i], noData, minValue, binSize, b) +
              (if vals[i] != noData && BinIndex(vals[i], minValue, binSize) == b then 1 else 0)
    ensures BinsNonNegative(vals[..i + 1], noData, minValue, binSize) <==>
              BinsNonNegative(vals[..i], noData, minValue, binSize) &&
              (vals[i] != noData ==> BinIndex(vals[i], minValue, binSize) >= 0)
  {
    assert vals[..i + 1][..i] == vals[..i];
    assert vals[..i + 1][i] == vals[i];
  }

  /** The first pass over the cells in row-major order: it counts the data
      cells and increments the bin of each; a negative bin index ends the
      run with the array-index exception. */
  method BuildHistogram(vals: seq<real>, noData: real, minValue: real, binSize: real)
      returns (hist: Option<seq<int>>, numCells: nat)
    ensures hist.None? <==> !BinsNonNegative(vals, noData, minValue, binSize)
    ensures hist.Some? ==> numCells == NumData(vals, noData)
    ensures hist.Some? ==> |hist.value| == NumBins
    ensures hist.Some? ==> forall b :: 0 <= b < NumBins ==> hist.value[b] == CountBin(vals, noData, minValue, binSize, b)
    ensures hist.Some? ==> NonNegative(hist.value) && Sum(hist.value) == numCells
    ensures hist.Some? ==> hist.value == Histogram(vals, noData, minValue, binSize)
  {
    var h := seq(NumBins, _ => 0);
    SumZeros(NumBins);
    assert vals[..0] == [];
    assert h == Histogram(vals[..0], noData, minValue, binSize);
    numCells := 0;
    var i := 0;
    while i < |vals|
      invariant 0 <= i <= |vals|
      invariant numCells == NumData(vals[..i], noData)
      invariant BinsNonNegative(vals[..i], noData, minValue, binSize)
      invariant h == Histogram(vals[..i], noData, minValue, binSize)
      invariant Sum(h) == numCells
    {
      var z := vals[i];
      CountStep(vals, noData, minValue, binSize, i);
      HistogramStep(vals, noData, minValue, binSize, i);
      if z != noData {
        numCells := numCells + 1;
        var b := BinIndex(z, minValue, binSize);
        if b < 0 {
          assert !BinsNonNegative(vals, noData, minValue, binSize) by {
            assert vals[i] != noData && BinIndex(vals[i], minValue, binSize) < 0;
          }
          hist := None;
          return;
        }
        SumUpdate(h, b, 1);
        h := h[b := h[b] + 1];
      }
      i := i + 1;
    }
    assert vals[..i] == vals;
    hist := Some(h);
  }
}
