/**
  The robust centre of the calibration samples (`weighted_median` in
  `src/calibration.rs`): implied weekly points weighted by five-hour movement.
*/
module WeightedMedian {
  import opened Options
  import opened UsageModel
  import opened Sorting

  datatype Sample = Sample(value: real, weight: Positive)

  predicate ValueAtMost(a: Sample, b: Sample) {
    a.value <= b.value
  }

  /** The sum of a measure over the samples. */
  function Total(samples: seq<Sample>, f: Sample -> real): real {
    if samples == [] then 0.0 else Total(samples[..|samples| - 1], f) + f(samples[|samples| - 1])
  }

  function Weight(): Sample -> real {
    (s: Sample) => s.weight
  }

  function WeightUpTo(v: real): Sample -> real {
    (s: Sample) => if s.value <= v then s.weight else 0.0
  }

  function WeightBelow(v: real): Sample -> real {
    (s: Sample) => if s.value < v then s.weight else 0.0
  }

  function AbsReal(x: real): real { if x < 0.0 then -x else x }

  function Deviation(x: real): Sample -> real {
    (s: Sample) => s.weight * AbsReal(x - s.value)
  }

  /** The first value, in value order, at which half of the total weight is reached. */
  function PickFrom(sorted: seq<Sample>, i: nat, cumulative: real, total: real): Option<real>
    requires i <= |sorted|
    decreases |sorted| - i
  {
    if i == |sorted| then None
    else if cumulative + sorted[i].weight >= total / 2.0 then Some(sorted[i].value)
    else PickFrom(sorted, i + 1, cumulative + sorted[i].weight, total)
  }

  function MedianOf(samples: seq<Sample>): Option<real> {
    PickFrom(Sort(samples, ValueAtMost), 0, 0.0, Total(Sort(samples, ValueAtMost), Weight()))
  }

  method FindWeightedMedian(samples: seq<Sample>) returns (r: Option<real>)
    ensures r == MedianOf(samples)
  {
    var sorted := Sort(samples, ValueAtMost);
    var total := 0.0;
    for i := 0 to |sorted|
      invariant total == Total(sorted[..i], Weight())
    {
      assert sorted[..i + 1][..i] == sorted[..i];
      total := total + sorted[i].weight;
    }
    assert sorted[..|sorted|] == sorted;
    var cumulative := 0.0;
    for i := 0 to |sorted|
      invariant PickFrom(sorted, i, cumulative, total) == MedianOf(samples)
    {
      cumulative := cumulative + sorted[i].weight;
      if cumulative >= total / 2.0 {
        return Some(sorted[i].value);
      }
    }
    r := None;
  }

  // ----- Sums do not depend on the order of the samples -----

  lemma {:induction false} TotalJoin(a: seq<Sample>, b: seq<Sample>, f: Sample -> real)
    ensures Total(a + b, f) == Total(a, f) + Total(b, f)
  {
    if b == [] {
      assert a + b == a;
    } else {
      var n := |b| - 1;
      TotalJoin(a, b[..n], f);
      assert (a + b)[..|a + b| - 1] == a + b[..n];
    }
  }

  function Without(b: seq<Sample>, j: nat): seq<Sample>
    requires j < |b|
  {
    b[..j] + b[j + 1..]
  }

  lemma {:induction false} TotalAppend(a: seq<Sample>, s: Sample, f: Sample -> real)
    ensures Total(a + [s], f) == Total(a, f) + f(s)
  {
    assert (a + [s])[..|a|] == a;
  }

  lemma {:induction false} TotalMiddle(left: seq<Sample>, s: Sample, right: seq<Sample>, f: Sample -> real)
    ensures Total(left + [s] + right, f) == Total(left + right, f) + f(s)
  {
    TotalJoin(left, right, f);
    TotalAppend(left, s, f);
    TotalJoin(left + [s], right, f);
  }

  lemma SplitAt(b: seq<Sample>, j: nat)
    requires j < |b|
    ensures b == b[..j] + [b[j]] + b[j + 1..]
  {
  }

  lemma {:induction false} TotalWithout(b: seq<Sample>, j: nat, f: Sample -> real)
    requires j < |b|
    ensures Total(b, f) == Total(Without(b, j), f) + f(b[j])
  {
    SplitAt(b, j);
    TotalMiddle(b[..j], b[j], b[j + 1..], f);
  }

  lemma MultisetWithout(b: seq<Sample>, j: nat)
    requires j < |b|
    ensures multiset(Without(b, j)) == multiset(b) - multiset{b[j]}
  {
    SplitAt(b, j);
  }

  lemma {:induction false} TotalPermutes(a: seq<Sample>, b: seq<Sample>, f: Sample -> real)
    requires multiset(a) == multiset(b)
    ensures Total(a, f) == Total(b, f)
  {
    if a == [] {
      assert |multiset(b)| == 0;
    } else {
      var n := |a| - 1;
      assert a == a[..n] + [a[n]];
      assert a[n] in multiset(b);
      var j :| 0 <= j < |b| && b[j] == a[n];
      TotalWithout(b, j, f);
      MultisetWithout(b, j);
      assert multiset(a[..n]) == multiset(a) - multiset{a[n]};
      TotalPermutes(a[..n], Without(b, j), f);
    }
  }

  // ----- What the chosen value is -----

  /** At least half of the weight lies at or below `v`, and less than half strictly below. */
  ghost predicate IsWeightedMedian(samples: seq<Sample>, v: real) {
    && (exists s :: s in samples && s.value == v)
    && 2.0 * Total(samples, WeightUpTo(v)) >= Total(samples, Weight())
    && 2.0 * Total(samples, WeightBelow(v)) < Total(samples, Weight())
  }

  lemma {:induction false} WeightsCompare(samples: seq<Sample>, v: real, w: real)
    requires v < w
    ensures 0.0 <= Total(samples, WeightBelow(v)) <= Total(samples, WeightUpTo(v))
              <= Total(samples, WeightBelow(w)) <= Total(samples, Weight())
  {
    if samples != [] {
      WeightsCompare(samples[..|samples| - 1], v, w);
    }
  }

  /** There is at most one such value. */
  lemma MedianUnique(samples: seq<Sample>, v: real, w: real)
    requires IsWeightedMedian(samples, v) && IsWeightedMedian(samples, w)
    ensures v == w
  {
    if v < w {
      WeightsCompare(samples, v, w);
    } else if w < v {
      WeightsCompare(samples, w, v);
    }
  }

  lemma MedianPermutes(a: seq<Sample>, b: seq<Sample>, v: real)
    requires multiset(a) == multiset(b) && IsWeightedMedian(a, v)
    ensures IsWeightedMedian(b, v)
  {
    TotalPermutes(a, b, WeightUpTo(v));
    TotalPermutes(a, b, WeightBelow(v));
    TotalPermutes(a, b, Weight());
    var s :| s in a && s.value == v;
    assert s in multiset(b);
  }

  /** In value order, everything up to `i` weighs at most what lies at or below its value. */
  lemma {:induction false} SortedPrefixWeight(sorted: seq<Sample>, i: nat, k: nat)
    requires Sorted(sorted, ValueAtMost) && i < |sorted| && k <= |sorted|
    ensures k <= i + 1 ==> Total(sorted[..k], WeightUpTo(sorted[i].value)) == Total(sorted[..k], Weight())
    ensures k >= i + 1 ==> Total(sorted[..k], WeightUpTo(sorted[i].value)) >= Total(sorted[..i + 1], Weight())
    ensures Total(sorted[..k], WeightBelow(sorted[i].value)) <= Total(sorted[..if k <= i then k else i], Weight())
    decreases k
  {
    if k > 0 {
      SortedPrefixWeight(sorted, i, k - 1);
      assert sorted[..k][..k - 1] == sorted[..k - 1];
      assert k - 1 < i ==> ValueAtMost(sorted[k - 1], sorted[i]);
      assert i < k - 1 ==> ValueAtMost(sorted[i], sorted[k - 1]);
    }
  }

  lemma {:induction false} PickIsMedian(sorted: seq<Sample>, i: nat)
    requires Sorted(sorted, ValueAtMost) && i < |sorted|
    requires 2.0 * Total(sorted[..i], Weight()) < Total(sorted, Weight())
    ensures var r := PickFrom(sorted, i, Total(sorted[..i], Weight()), Total(sorted, Weight()));
            r.Some? && IsWeightedMedian(sorted, r.value)
    decreases |sorted| - i
  {
    var total, upTo := Total(sorted, Weight()), Total(sorted[..i + 1], Weight());
    assert sorted[..i + 1][..i] == sorted[..i];
    assert sorted[..|sorted|] == sorted;
    if 2.0 * upTo >= total {
      SortedPrefixWeight(sorted, i, |sorted|);
      assert sorted[i] in sorted;
    } else {
      if i + 1 == |sorted| {
        WeightsCompare(sorted, 0.0, 1.0);
      }
      PickIsMedian(sorted, i + 1);
    }
  }

  lemma {:induction false} WeightIsPositive(samples: seq<Sample>)
    requires samples != []
    ensures Total(samples, Weight()) > 0.0
  {
    var n := |samples| - 1;
    if n > 0 {
      WeightIsPositive(samples[..n]);
    }
  }

  /** The loop finds the weighted median, and finds nothing only when there is no sample. */
  lemma MedianIsMedian(samples: seq<Sample>)
    ensures MedianOf(samples) == None <==> samples == []
    ensures samples != [] ==> IsWeightedMedian(samples, MedianOf(samples).value)
  {
    var sorted := Sort(samples, ValueAtMost);
    if samples != [] {
      SortSorted(samples, ValueAtMost);
      SortPermutes(samples, ValueAtMost);
      WeightIsPositive(sorted);
      PickIsMedian(sorted, 0);
      MedianPermutes(sorted, samples, MedianOf(samples).value);
    }
  }

  /** The order of the samples does not matter. */
  lemma MedianIgnoresOrder(a: seq<Sample>, b: seq<Sample>)
    requires multiset(a) == multiset(b)
    ensures MedianOf(a) == MedianOf(b)
  {
    MedianIsMedian(a);
    MedianIsMedian(b);
    assert |a| == |multiset(a)| == |multiset(b)| == |b|;
    if a != [] {
      MedianPermutes(a, b, MedianOf(a).value);
      MedianUnique(b, MedianOf(a).value, MedianOf(b).value);
    }
  }

  // ----- Optimality -----

  /** To the right of `v` a sample's deviation rises with its weight, or falls at most with it. */
  lemma SlopeRight(w: Positive, y: real, v: real, x: real)
    requires v <= x
    ensures w * AbsReal(x - y) - w * AbsReal(v - y) >= (x - v) * (if y <= v then w else 0.0 - w)
  {
    var change := AbsReal(x - y) - AbsReal(v - y);
    assert w * AbsReal(x - y) - w * AbsReal(v - y) == w * change;
    if y <= v {
      assert change == x - v;
    } else {
      assert change >= v - x;
      assert w * change >= w * (v - x);
    }
  }

  lemma SlopeLeft(w: Positive, y: real, v: real, x: real)
    requires x <= v
    ensures w * AbsReal(x - y) - w * AbsReal(v - y) >= (v - x) * (if y < v then 0.0 - w else w)
  {
    var change := AbsReal(x - y) - AbsReal(v - y);
    assert w * AbsReal(x - y) - w * AbsReal(v - y) == w * change;
    if y < v {
      assert change >= x - v;
      assert w * change >= w * (x - v);
    } else {
      assert change == v - x;
    }
  }

  lemma AddSlopes(a: real, p: real, q: real, sum: real, rise: real, more: real)
    requires rise >= a * p && more >= a * q && sum == p + q
    ensures rise + more >= a * sum
  {
    assert a * (p + q) == a * p + a * q;
  }

  function RightSlope(samples: seq<Sample>, v: real): real {
    2.0 * Total(samples, WeightUpTo(v)) - Total(samples, Weight())
  }

  function LeftSlope(samples: seq<Sample>, v: real): real {
    Total(samples, Weight()) - 2.0 * Total(samples, WeightBelow(v))
  }

  function Rise(samples: seq<Sample>, v: real, x: real): real {
    Total(samples, Deviation(x)) - Total(samples, Deviation(v))
  }

  lemma SlopesGrow(init: seq<Sample>, s: Sample, v: real, x: real)
    ensures RightSlope(init + [s], v) == RightSlope(init, v) + (if s.value <= v then s.weight else 0.0 - s.weight)
    ensures LeftSlope(init + [s], v) == LeftSlope(init, v) + (if s.value < v then 0.0 - s.weight else s.weight)
    ensures Rise(init + [s], v, x)
            == Rise(init, v, x) + (s.weight * AbsReal(x - s.value) - s.weight * AbsReal(v - s.value))
  {
    assert (init + [s])[..|init|] == init;
  }

  lemma {:induction false} RiseRight(samples: seq<Sample>, v: real, x: real)
    requires v <= x
    ensures Rise(samples, v, x) >= (x - v) * RightSlope(samples, v)
  {
    if samples != [] {
      var init, s := samples[..|samples| - 1], samples[|samples| - 1];
      assert init + [s] == samples;
      RiseRight(init, v, x);
      SlopesGrow(init, s, v, x);
      SlopeRight(s.weight, s.value, v, x);
      AddSlopes(x - v, RightSlope(init, v), if s.value <= v then s.weight else 0.0 - s.weight, RightSlope(samples, v),
                Rise(init, v, x), s.weight * AbsReal(x - s.value) - s.weight * AbsReal(v - s.value));
    }
  }

  lemma {:induction false} RiseLeft(samples: seq<Sample>, v: real, x: real)
    requires x <= v
    ensures Rise(samples, v, x) >= (v - x) * LeftSlope(samples, v)
  {
    if samples != [] {
      var init, s := samples[..|samples| - 1], samples[|samples| - 1];
      assert init + [s] == samples;
      RiseLeft(init, v, x);
      SlopesGrow(init, s, v, x);
      SlopeLeft(s.weight, s.value, v, x);
      AddSlopes(v - x, LeftSlope(init, v), if s.value < v then 0.0 - s.weight else s.weight, LeftSlope(samples, v),
                Rise(init, v, x), s.weight * AbsReal(x - s.value) - s.weight * AbsReal(v - s.value));
    }
  }

  lemma NonNegativeRise(a: real, b: real, rise: real)
    requires 0.0 <= a && 0.0 <= b && a * b <= rise
    ensures 0.0 <= rise
  {
  }

  lemma OptimalRight(samples: seq<Sample>, v: real, x: real)
    requires v <= x && RightSlope(samples, v) >= 0.0
    ensures Rise(samples, v, x) >= 0.0
  {
    RiseRight(samples, v, x);
    NonNegativeRise(x - v, RightSlope(samples, v), Rise(samples, v, x));
  }

  lemma OptimalLeft(samples: seq<Sample>, v: real, x: real)
    requires x <= v && LeftSlope(samples, v) >= 0.0
    ensures Rise(samples, v, x) >= 0.0
  {
    RiseLeft(samples, v, x);
    NonNegativeRise(v - x, LeftSlope(samples, v), Rise(samples, v, x));
  }

  /** The chosen value minimises the weighted sum of absolute deviations over all reals. */
  lemma {:induction false} MedianIsOptimal(samples: seq<Sample>, v: real, x: real)
    requires MedianOf(samples) == Some(v)
    ensures Total(samples, Deviation(v)) <= Total(samples, Deviation(x))
  {
    MedianIsMedian(samples);
    if v <= x {
      OptimalRight(samples, v, x);
    } else {
      OptimalLeft(samples, v, x);
    }
  }
}
