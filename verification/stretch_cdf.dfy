/** The two cumulative distributions of the Gaussian stretch: the image's
    own, from its histogram, and the reference one, from the Gaussian
    weights of the output bins. Both are running sums divided by a total. */
module StretchCdf {
  import opened Common

  /** Reference definition of the running sums: entry i is the sum of
      entries 0 .. i. */
  function Accumulated(s: seq<real>): (p: seq<real>)
    ensures |p| == |s|
  {
    seq(|s|, i requires 0 <= i < |s| => RSum(s[..i + 1]))
  }

  /** The in-place accumulation loops `a[i] = a[i - 1] + h[i]` and
      `a[i] += a[i - 1]`. */
  method PrefixSums(s: seq<real>) returns (p: seq<real>)
    ensures p == Accumulated(s)
  {
    p := s;
    var i := 1;
    if |s| > 0 {
      assert s[..1] == [s[0]];
      assert RSum(s[..1]) == s[0] by {
        assert s[..1][..0] == [];
      }
    }
    while i < |s|
      invariant 1 <= i
      invariant |p| == |s|
      invariant |s| > 0 ==> i <= |s|
      invariant forall k :: 0 <= k < i && k < |s| ==> p[k] == RSum(s[..k + 1])
      invariant forall k :: i <= k < |s| ==> p[k] == s[k]
    {
      assert s[..i + 1][..i] == s[..i];
      p := p[i := p[i - 1] + p[i]];
      i := i + 1;
    }
  }

  /** Every entry divided by the same non-zero total. */
  function Normalised(p: seq<real>, total: real): (r: seq<real>)
    requires total != 0.0
    ensures |r| == |p|
  {
    seq(|p|, i requires 0 <= i < |p| => p[i] / total)
  }

  /** The running sums of a non-negative sequence never decrease, lie
      between 0 and the total, and end at the total. */
  lemma AccumulatedShape(s: seq<real>)
    requires forall k :: 0 <= k < |s| ==> s[k] >= 0.0
    ensures NonDecreasing(Accumulated(s))
    ensures forall i :: 0 <= i < |s| ==> 0.0 <= Accumulated(s)[i] <= RSum(s)
    ensures |s| > 0 ==> Accumulated(s)[|s| - 1] == RSum(s)
  {
    var p := Accumulated(s);
    forall i, j | 0 <= i <= j < |s|
      ensures p[i] <= p[j]
    {
      RSumPrefixMonotone(s, i + 1, j + 1);
    }
    forall i | 0 <= i < |s|
      ensures 0.0 <= p[i] <= RSum(s)
    {
      AccumulatedBounds(s, i);
    }
    if |s| > 0 {
      assert s[..|s|] == s;
    }
  }

  lemma AccumulatedBounds(s: seq<real>, i: int)
    requires forall k :: 0 <= k < |s| ==> s[k] >= 0.0
    requires 0 <= i < |s|
    ensures 0.0 <= RSum(s[..i + 1]) <= RSum(s)
  {
    RSumPrefixMonotone(s, 0, i + 1);
    RSumPrefixMonotone(s, i + 1, |s|);
    assert s[..0] == [];
    assert s[..|s|] == s;
  }

  /** The running sums of a positive sequence strictly increase and are
      positive. */
  lemma AccumulatedStrict(s: seq<real>)
    requires Positive(s)
    ensures StrictlyIncreasing(Accumulated(s))
    ensures forall i :: 0 <= i < |s| ==> Accumulated(s)[i] > 0.0
  {
    var p := Accumulated(s);
    forall i, j | 0 <= i < j < |s|
      ensures p[i] < p[j]
    {
      RSumPrefixStrict(s, i + 1, j + 1);
    }
    assert s[..0] == [];
    forall i | 0 <= i < |s|
      ensures p[i] > 0.0
    {
      RSumPrefixStrict(s, 0, i + 1);
    }
  }

  /** Dividing by a positive total keeps the order of the entries. */
  lemma NormalisedOrder(p: seq<real>, t: real)
    requires t > 0.0
    ensures NonDecreasing(p) ==> NonDecreasing(Normalised(p, t))
    ensures StrictlyIncreasing(p) ==> StrictlyIncreasing(Normalised(p, t))
  {
    var r := Normalised(p, t);
    if NonDecreasing(p) {
      forall i, j | 0 <= i <= j < |p|
        ensures r[i] <= r[j]
      {
        DivMonotone(p[i], p[j], t);
      }
    }
    if StrictlyIncreasing(p) {
      forall i, j | 0 <= i < j < |p|
        ensures r[i] < r[j]
      {
        DivStrictMonotone(p[i], p[j], t);
      }
    }
  }

  /** Entries between 0 and the total become fractions in [0, 1], positive
      ones stay positive, and the total itself becomes 1. */
  lemma NormalisedRange(p: seq<real>, t: real, i: int)
    requires t > 0.0 && 0 <= i < |p| && 0.0 <= p[i] <= t
    ensures 0.0 <= Normalised(p, t)[i] <= 1.0
    ensures p[i] > 0.0 ==> Normalised(p, t)[i] > 0.0
    ensures p[i] == t ==> Normalised(p, t)[i] == 1.0
  {
    DivMonotone(0.0, p[i], t);
    DivMonotone(p[i], t, t);
    DivSelf(t);
    if p[i] > 0.0 {
      DivStrictMonotone(0.0, p[i], t);
    }
  }

  /** The image CDF: the running counts of the histogram divided by the
      number of data cells. With no data cell the division is 0/0 and the
      entries are undefined, which is `None`. */
  function Cdf(hist: seq<int>, numCells: nat): (cdf: Option<seq<real>>)
    ensures cdf.None? <==> numCells == 0
    ensures cdf.Some? ==> |cdf.value| == |hist|
    ensures cdf.Some? && NonNegative(hist) ==> NonDecreasing(cdf.value)
    ensures cdf.Some? && NonNegative(hist) && Sum(hist) == numCells ==>
              (forall i :: 0 <= i < |hist| ==> 0.0 <= cdf.value[i] <= 1.0) &&
              (|hist| > 0 ==> cdf.value[|hist| - 1] == 1.0)
  {
    if numCells == 0 then None
    else
      var counts := AsReals(hist);
      var p := Accumulated(counts);
      var t := numCells as real;
      var r := Normalised(p, t);
      assert NonNegative(hist) ==> NonDecreasing(r) && forall i :: 0 <= i < |hist| ==> 0.0 <= p[i] <= RSum(counts) by {
        if NonNegative(hist) {
          AccumulatedShape(counts);
          NormalisedOrder(p, t);
        }
      }
      assert NonNegative(hist) && Sum(hist) == numCells ==>
               (forall i :: 0 <= i < |hist| ==> 0.0 <= r[i] <= 1.0) && (|hist| > 0 ==> r[|hist| - 1] == 1.0) by {
        if NonNegative(hist) && Sum(hist) == numCells {
          RSumOfInts(hist);
          AccumulatedShape(counts);
          forall i | 0 <= i < |hist|
            ensures 0.0 <= r[i] <= 1.0
          {
            NormalisedRange(p, t, i);
          }
          if |hist| > 0 {
            NormalisedRange(p, t, |hist| - 1);
          }
        }
      }
      Some(r)
  }

  /** The reference CDF: the running sums of the Gaussian weights divided
      by their total. The weights are positive; with no output bin the read
      of the last running sum fails, which is `None`. */
  function ReferenceCdf(weights: seq<real>): (ref: Option<seq<real>>)
    requires Positive(weights)
    ensures ref.None? <==> |weights| == 0
    ensures ref.Some? ==> |ref.value| == |weights|
    ensures ref.Some? ==> StrictlyIncreasing(ref.value)
    ensures ref.Some? ==> forall i :: 0 <= i < |weights| ==> 0.0 < ref.value[i] <= 1.0
    ensures ref.Some? ==> ref.value[|weights| - 1] == 1.0
  {
    if |weights| == 0 then None
    else
      var n := |weights|;
      var p := Accumulated(weights);
      AccumulatedShape(weights);
      AccumulatedStrict(weights);
      var t := p[n - 1];
      var r := Normalised(p, t);
      NormalisedOrder(p, t);
      assert forall i :: 0 <= i < n ==> 0.0 < r[i] <= 1.0 by {
        forall i | 0 <= i < n
          ensures 0.0 < r[i] <= 1.0
        {
          NormalisedRange(p, t, i);
        }
      }
      NormalisedRange(p, t, n - 1);
      Some(r)
  }

  /** The plugin's loops: accumulate, then divide by the last running
      sum. */
  method ComputeReferenceCdf(weights: seq<real>) returns (ref: Option<seq<real>>)
    requires Positive(weights)
    ensures ref == ReferenceCdf(weights)
  {
    if |weights| == 0 {
      return None;
    }
    var p := PrefixSums(weights);
    AccumulatedStrict(weights);
    var total := p[|weights| - 1];
    ref := Some(Normalised(p, total));
  }

  /** The plugin's loops: accumulate, then divide by the cell count. */
  method ComputeCdf(hist: seq<int>, numCells: nat) returns (cdf: Option<seq<real>>)
    ensures cdf == Cdf(hist, numCells)
  {
    var p := PrefixSums(AsReals(hist));
    if numCells == 0 {
      return None;
    }
    cdf := Some(Normalised(p, numCells as real));
  }
}
