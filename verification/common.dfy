/** Shared vocabulary: an optional value, real minimum/maximum, sums and
    the ordering predicates used by both raster transforms. */
module Common {

  /** A value that may be missing; `None` stands for the run that the
      tool abandons with an exception. */
  datatype Option<T> = None | Some(value: T)

  function Min(a: real, b: real): (r: real)
    ensures r <= a && r <= b
    ensures r == a || r == b
  {
    if a <= b then a else b
  }

  function Max(a: real, b: real): (r: real)
    ensures r >= a && r >= b
    ensures r == a || r == b
  {
    if a >= b then a else b
  }

  function Square(v: real): (r: real)
    ensures r >= 0.0
  {
    v * v
  }

  /** Linear interpolation from a towards b by the fraction f: the value
      stays between the two ends and equals a at f = 0. */
  function Lerp(a: real, b: real, f: real): (r: real)
    ensures 0.0 <= f <= 1.0 ==> Min(a, b) <= r <= Max(a, b)
    ensures f == 0.0 ==> r == a
  {
    LerpBetween(a, b, f);
    a + f * (b - a)
  }

  /** The interpolated value lies between the two ends, in whichever order
      they come, and is the first end at f = 0. */
  lemma LerpBetween(a: real, b: real, f: real)
    ensures 0.0 <= f <= 1.0 ==> Min(a, b) <= a + f * (b - a) <= Max(a, b)
    ensures f == 0.0 ==> a + f * (b - a) == a
  {
    if 0.0 <= f <= 1.0 {
      var d := b - a;
      if d >= 0.0 {
        ProductNonNegative(f, d);
        ProductNonNegative(1.0 - f, d);
      } else {
        ProductNonNegative(f, -d);
        ProductNonNegative(1.0 - f, -d);
      }
    }
  }

  lemma ProductNonNegative(x: real, y: real)
    requires x >= 0.0 && y >= 0.0
    ensures x * y >= 0.0
  {
  }

  /** Sum of integers, peeled from the back so that prefix sums unfold one step at a time. */
  function Sum(s: seq<int>): int
  {
    if |s| == 0 then 0 else Sum(s[..|s| - 1]) + s[|s| - 1]
  }

  /** Sum of reals, peeled from the back like `Sum`. */
  function RSum(s: seq<real>): real
  {
    if |s| == 0 then 0.0 else RSum(s[..|s| - 1]) + s[|s| - 1]
  }

  function AsReals(s: seq<int>): (r: seq<real>)
    ensures |r| == |s|
    ensures forall i :: 0 <= i < |s| ==> r[i] == s[i] as real
  {
    seq(|s|, i requires 0 <= i < |s| => s[i] as real)
  }

  predicate NonNegative(s: seq<int>)
  {
    forall i :: 0 <= i < |s| ==> s[i] >= 0
  }

  predicate Positive(s: seq<real>)
  {
    forall i :: 0 <= i < |s| ==> s[i] > 0.0
  }

  predicate NonDecreasing(s: seq<real>)
  {
    forall i, j :: 0 <= i <= j < |s| ==> s[i] <= s[j]
  }

  predicate StrictlyIncreasing(s: seq<real>)
  {
    forall i, j :: 0 <= i < j < |s| ==> s[i] < s[j]
  }

  /** Adding `d` to one entry adds `d` to the total. */
  lemma {:induction false} SumUpdate(s: seq<int>, i: int, d: int)
    requires 0 <= i < |s|
    ensures Sum(s[i := s[i] + d]) == Sum(s) + d
    decreases |s|
  {
    var t := s[i := s[i] + d];
    if i == |s| - 1 {
      assert t[..|t| - 1] == s[..|s| - 1];
    } else {
      assert t[..|t| - 1] == s[..|s| - 1][i := s[i] + d];
      SumUpdate(s[..|s| - 1], i, d);
    }
  }

  /** A sequence of zeros sums to zero. */
  lemma {:induction false} SumZeros(n: nat)
    ensures Sum(seq(n, _ => 0)) == 0
  {
    if n > 0 {
      assert seq(n, _ => 0)[..n - 1] == seq(n - 1, _ => 0);
      SumZeros(n - 1);
    }
  }

  /** Converting counts to reals commutes with summing them. */
  lemma {:induction false} RSumOfInts(s: seq<int>)
    ensures RSum(AsReals(s)) == Sum(s) as real
  {
    if |s| > 0 {
      assert AsReals(s)[..|s| - 1] == AsReals(s[..|s| - 1]);
      RSumOfInts(s[..|s| - 1]);
    }
  }

  /** Sums of a non-negative sequence grow with the prefix. */
  lemma {:induction false} RSumPrefixMonotone(s: seq<real>, i: nat, j: nat)
    requires i <= j <= |s|
    requires forall k :: 0 <= k < |s| ==> s[k] >= 0.0
    ensures RSum(s[..i]) <= RSum(s[..j])
    decreases j - i
  {
    if i < j {
      assert s[..j][..j - 1] == s[..j - 1];
      RSumPrefixMonotone(s, i, j - 1);
    }
  }

  /** Sums of a positive sequence grow strictly with the prefix. */
  lemma RSumPrefixStrict(s: seq<real>, i: nat, j: nat)
    requires i < j <= |s|
    requires Positive(s)
    ensures RSum(s[..i]) < RSum(s[..j])
  {
    assert s[..j][..j - 1] == s[..j - 1];
    RSumPrefixMonotone(s, i, j - 1);
  }

  /** Dividing by a positive total keeps order, strict order and sign. */
  lemma DivMonotone(a: real, b: real, t: real)
    requires t > 0.0 && a <= b
    ensures a / t <= b / t
  {
  }

  lemma DivStrictMonotone(a: real, b: real, t: real)
    requires t > 0.0 && a < b
    ensures a / t < b / t
  {
  }

  lemma DivSelf(t: real)
    requires t > 0.0
    ensures t / t == 1.0
  {
  }
}
