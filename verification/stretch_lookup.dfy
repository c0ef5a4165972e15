/** The inverse-CDF lookup of the Gaussian stretch: a decile table of
    starting indices into the reference CDF and the linear search that maps
    a cell's CDF value to an output bin. */
module StretchLookup {
  import opened Common

  /** The test the table applies for decile k: `p < k/10` for k in 1 .. 9
      and `p <= 1` for k = 10. */
  predicate Below(k: int, p: real)
  {
    if k == 10 then p <= 1.0 else p < (k as real) / 10.0
  }

  /** One iteration of the table loop: every decile whose test accepts the
      reference value at index i records i; entry 0 is never written. */
  function Mark(sv: seq<int>, p: real, i: int): (r: seq<int>)
    requires |sv| == 11
    ensures |r| == 11 && r[0] == sv[0]
    ensures forall k :: 1 <= k <= 10 && Below(k, p) ==> r[k] == i
    ensures forall k :: 0 <= k < 11 && r[k] != sv[k] ==> 1 <= k && Below(k, p)
  {
    seq(11, k requires 0 <= k < 11 => if 1 <= k && Below(k, p) then i else sv[k])
  }

  /** The table loop from index i on: each decile k ends with the largest
      index whose value passes its test, or keeps its entry if none does. */
  function ScanStarts(ref: seq<real>, i: nat, sv: seq<int>): (r: seq<int>)
    requires i <= |ref| && |sv| == 11
    decreases |ref| - i
    ensures |r| == 11 && r[0] == sv[0]
    ensures forall k, m :: 1 <= k <= 10 && i <= m < |ref| && Below(k, ref[m]) ==>
              m <= r[k] < |ref| && Below(k, ref[r[k]])
    ensures forall k :: 1 <= k <= 10 && (forall m :: i <= m < |ref| ==> !Below(k, ref[m])) ==> r[k] == sv[k]
  {
    if i == |ref| then sv
    else ScanStarts(ref, i + 1, Mark(sv, ref[i], i))
  }

  /** The table `startingVals`, which starts as all zeros. */
  function StartingValues(ref: seq<real>): (sv: seq<int>)
    ensures |sv| == 11
    ensures forall k :: 0 <= k <= 10 ==> 0 <= sv[k] && (|ref| > 0 ==> sv[k] < |ref|)
  {
    ScanStarts(ref, 0, seq(11, _ => 0))
  }

  /** The table in words: entry 0 is 0; entry k is the largest index whose
      value passes decile k's test, or 0 if none does; and for a normalised
      CDF entry 10 is the last index. */
  lemma StartingValuesTable(ref: seq<real>)
    ensures StartingValues(ref)[0] == 0
    ensures forall k, m :: 1 <= k <= 10 && 0 <= m < |ref| && Below(k, ref[m]) ==>
              m <= StartingValues(ref)[k] && Below(k, ref[StartingValues(ref)[k]])
    ensures forall k :: 1 <= k <= 10 && (forall m :: 0 <= m < |ref| ==> !Below(k, ref[m])) ==>
              StartingValues(ref)[k] == 0
    ensures |ref| > 0 && ref[|ref| - 1] <= 1.0 ==> StartingValues(ref)[10] == |ref| - 1
  {
    if |ref| > 0 && ref[|ref| - 1] <= 1.0 {
      assert Below(10, ref[|ref| - 1]);
    }
  }

  /** `(int) Math.floor(pVal * 10)` for a CDF value. */
  function Decile(pVal: real): (j: int)
    requires 0.0 <= pVal <= 1.0
    ensures 0 <= j <= 10
    ensures (j as real) / 10.0 <= pVal
    ensures pVal < ((j + 1) as real) / 10.0
    ensures j == 10 <==> pVal == 1.0
  {
    (pVal * 10.0).Floor
  }

  /** The first index from i on whose reference value exceeds pVal. */
  predicate FirstAbove(ref: seq<real>, pVal: real, i: nat, f: int)
  {
    i <= f < |ref| && 0 <= f && ref[f] > pVal && forall m :: i <= m < f ==> ref[m] <= pVal
  }

  /** No reference value from i on exceeds pVal. */
  predicate NoneAbove(ref: seq<real>, pVal: real, i: nat)
  {
    forall m :: i <= m < |ref| && 0 <= m ==> ref[m] <= pVal
  }

  /** The last index from i on whose reference value equals pVal. */
  predicate LastEqual(ref: seq<real>, pVal: real, i: nat, e: int)
  {
    i <= e < |ref| && 0 <= e && ref[e] == pVal && forall m :: e < m < |ref| ==> ref[m] != pVal
  }

  /** The search loop from index i on, with `xVal` the value carried over.
      It stops at the first value above pVal and answers the index before
      it (or 0 at index 0); an equal value is remembered and the search
      goes on; with nothing above, the last equal index or the carried
      value is the answer. */
  function Search(ref: seq<real>, pVal: real, i: nat, xVal: int): (x: int)
    requires i <= |ref|
    decreases |ref| - i
    ensures forall f :: FirstAbove(ref, pVal, i, f) ==> x == if f > 0 then f - 1 else f
    ensures NoneAbove(ref, pVal, i) ==> forall e :: LastEqual(ref, pVal, i, e) ==> x == e
    ensures NoneAbove(ref, pVal, i) && (forall m :: i <= m < |ref| ==> ref[m] != pVal) ==> x == xVal
    ensures x == xVal || 0 <= x < |ref|
    ensures (exists m :: i <= m < |ref| && ref[m] > pVal) ==> 0 <= x < |ref|
  {
    if i == |ref| then xVal
    else if ref[i] > pVal then (if i > 0 then i - 1 else i)
    else if ref[i] == pVal then
      assert forall f :: FirstAbove(ref, pVal, i, f) ==> FirstAbove(ref, pVal, i + 1, f);
      assert forall e :: LastEqual(ref, pVal, i, e) && e > i ==> LastEqual(ref, pVal, i + 1, e);
      assert NoneAbove(ref, pVal, i) ==> NoneAbove(ref, pVal, i + 1);
      Search(ref, pVal, i + 1, i)
    else
      assert forall f :: FirstAbove(ref, pVal, i, f) ==> FirstAbove(ref, pVal, i + 1, f);
      assert forall e :: LastEqual(ref, pVal, i, e) ==> LastEqual(ref, pVal, i + 1, e);
      Search(ref, pVal, i + 1, xVal)
  }

  /** Skipping values below pVal changes nothing. */
  lemma {:induction false} SearchSkip(ref: seq<real>, pVal: real, a: nat, b: nat, xVal: int)
    requires a <= b <= |ref|
    requires forall m :: a <= m < b ==> ref[m] < pVal
    ensures Search(ref, pVal, a, xVal) == Search(ref, pVal, b, xVal)
    decreases b - a
  {
    if a < b {
      SearchSkip(ref, pVal, a + 1, b, xVal);
    }
  }

  /** Some value above pVal has a first one. */
  lemma {:induction false} FindFirstAbove(ref: seq<real>, pVal: real, i: nat, m: int) returns (f: int)
    requires i <= m < |ref| && ref[m] > pVal
    ensures FirstAbove(ref, pVal, i, f)
    decreases m - i
  {
    if ref[i] > pVal {
      f := i;
    } else {
      f := FindFirstAbove(ref, pVal, i + 1, m);
    }
  }

  /** Against a normalised reference CDF the search from 0 never answers
      with the carried value: some entry is at least pVal, so the answer is
      an index of the reference CDF. */
  lemma SearchNeverCarries(ref: seq<real>, pVal: real, xVal: int)
    requires NonDecreasing(ref) && |ref| > 0 && ref[|ref| - 1] == 1.0
    requires 0.0 <= pVal <= 1.0
    ensures Search(ref, pVal, 0, xVal) == Search(ref, pVal, 0, 0)
    ensures 0 <= Search(ref, pVal, 0, xVal) < |ref|
  {
    var n := |ref|;
    if exists m :: 0 <= m < n && ref[m] > pVal {
      var m :| 0 <= m < n && ref[m] > pVal;
      var f := FindFirstAbove(ref, pVal, 0, m);
    } else {
      assert NoneAbove(ref, pVal, 0);
      assert LastEqual(ref, pVal, 0, n - 1);
    }
  }

  /** One cell's lookup: the search starts at the table entry of the
      value's decile. */
  function Lookup(ref: seq<real>, sv: seq<int>, pVal: real, xVal: int): (x: int)
    requires |sv| == 11 && 0.0 <= pVal <= 1.0
    requires forall k :: 0 <= k <= 10 ==> 0 <= sv[k] <= |ref|
    ensures x == xVal || 0 <= x < |ref|
    ensures (exists m :: sv[Decile(pVal)] <= m < |ref| && ref[m] > pVal) ==> 0 <= x < |ref|
  {
    Search(ref, pVal, sv[Decile(pVal)], xVal)
  }

  /** The decile table only skips entries that cannot change the answer:
      the lookup finds what a search from index 0 finds. */
  lemma LookupMatchesFullSearch(ref: seq<real>, pVal: real, xVal: int)
    requires NonDecreasing(ref) && |ref| > 0 && ref[|ref| - 1] == 1.0
    requires 0.0 <= pVal <= 1.0
    ensures Lookup(ref, StartingValues(ref), pVal, xVal) == Search(ref, pVal, 0, xVal)
  {
    var n := |ref|;
    var sv := StartingValues(ref);
    var j := Decile(pVal);
    StartingValuesTable(ref);
    if j == 10 {
      assert sv[10] == n - 1;
      assert LastEqual(ref, pVal, 0, n - 1);
      assert LastEqual(ref, pVal, n - 1, n - 1);
      assert NoneAbove(ref, pVal, 0);
    } else if 1 <= j && exists m :: 0 <= m < n && Below(j, ref[m]) {
      forall m | 0 <= m < sv[j]
        ensures ref[m] < pVal
      {
        assert ref[m] <= ref[sv[j]];
      }
      SearchSkip(ref, pVal, 0, sv[j], xVal);
    } else {
      assert sv[j] == 0;
    }
  }

  /** The search from 0 against a normalised reference CDF is monotone in
      the CDF value: a larger value never maps to a lower output bin. */
  lemma SearchMonotone(ref: seq<real>, p1: real, p2: real)
    requires NonDecreasing(ref) && |ref| > 0 && ref[|ref| - 1] == 1.0
    requires 0.0 <= p1 <= p2 <= 1.0
    ensures Search(ref, p1, 0, 0) <= Search(ref, p2, 0, 0)
  {
    var n := |ref|;
    SearchNeverCarries(ref, p1, 0);
    SearchNeverCarries(ref, p2, 0);
    if exists m :: 0 <= m < n && ref[m] > p2 {
      var m :| 0 <= m < n && ref[m] > p2;
      var f2 := FindFirstAbove(ref, p2, 0, m);
      var f1 := FindFirstAbove(ref, p1, 0, f2);
    } else {
      assert NoneAbove(ref, p2, 0);
      assert LastEqual(ref, p2, 0, n - 1);
    }
  }
}
