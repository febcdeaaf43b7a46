/**
  The second half of `build_report` in `src/calibration.rs`: each group yields at
  most one sample, the eligible samples yield a robust candidate calibration, and
  the report says whether replacing the active calibration is recommended.
*/
module CalibrationReport {
  import opened Options
  import opened UsageModel
  import opened Sorting
  import opened WeightedMedian
  import opened CalibrationGroups

  // ----- Samples -----

  datatype Quality = Ignored | Low | Useful | High

  function ClassifyMovement(movement: real): (Quality, bool) {
    if movement < 25.0 then (Ignored, false)
    else if movement < 50.0 then (Low, false)
    else if movement < 80.0 then (Useful, true)
    else (High, true)
  }

  datatype SampleRecord = SampleRecord(
    start: Time,
    end: Time,
    fiveDelta: Positive,
    weeklyDelta: real,
    implied: Positive,
    quality: Quality,
    eligible: bool)

  predicate Qualifies(s: SampleRecord) {
    s.quality.Useful? || s.quality.High?
  }

  type CalibrationSample = s: SampleRecord | s.eligible <==> Qualifies(s)
    witness SampleRecord(0, 0, 1.0, 1.0, 1.0, Ignored, false)

  /** The sample of one group, if its movement supports one. */
  function SampleOf(group: seq<CalibrationObservation>): Option<CalibrationSample> {
    var sorted := Sort(group, NoLaterThan);
    if |sorted| < 2 then None
    else
      var first, last := sorted[0], sorted[|sorted| - 1];
      if first.fiveHour.None? || last.fiveHour.None? || first.weekly.None? || last.weekly.None? then None
      else
        var fiveDelta: real := last.fiveHour.value.used - first.fiveHour.value.used;
        var weeklyDelta: real := last.weekly.value.used - first.weekly.value.used;
        if fiveDelta <= 0.0 || weeklyDelta < 0.0 then None
        else
          var implied := weeklyDelta * 100.0 / fiveDelta;
          if implied <= 0.0 then None
          else
            var (quality, eligible) := ClassifyMovement(fiveDelta);
            Some(SampleRecord(first.at, last.at, fiveDelta, weeklyDelta, implied, quality, eligible))
  }

  /** Quality follows the five-hour movement; a sample is eligible exactly from half of the range on. */
  lemma SampleMeansMovement(group: seq<CalibrationObservation>)
    requires SampleOf(group).Some?
    ensures var s := SampleOf(group).value;
            && (s.eligible <==> s.fiveDelta >= 50.0)
            && (s.quality == High <==> s.fiveDelta >= 80.0)
            && (s.quality == Ignored <==> s.fiveDelta < 25.0)
            && s.fiveDelta <= 100.0 && 0.0 < s.weeklyDelta <= 100.0
            && s.start <= s.end
            && s.implied * s.fiveDelta == s.weeklyDelta * 100.0
  {
    var sorted := Sort(group, NoLaterThan);
    SortSorted(group, NoLaterThan);
    assert NoLaterThan(sorted[0], sorted[|sorted| - 1]);
  }

  predicate StartsNoLater(a: CalibrationSample, b: CalibrationSample) {
    a.start <= b.start
  }

  function SamplesOf(groups: seq<Entry>): seq<CalibrationSample> {
    if groups == [] then []
    else
      var sample := SampleOf(groups[|groups| - 1].members);
      SamplesOf(groups[..|groups| - 1]) + (if sample.Some? then [sample.value] else [])
  }

  method CollectSamples(groups: seq<Entry>) returns (samples: seq<CalibrationSample>, excluded: nat)
    ensures samples == SamplesOf(groups)
    ensures |samples| + excluded == |groups|
  {
    samples, excluded := [], 0;
    for i := 0 to |groups|
      invariant samples == SamplesOf(groups[..i]) && |samples| + excluded == i
    {
      assert groups[..i + 1][..i] == groups[..i];
      var sample := SampleOf(groups[i].members);
      if sample.Some? {
        samples := samples + [sample.value];
      } else {
        excluded := excluded + 1;
      }
    }
    assert groups[..|groups|] == groups;
  }

  lemma {:induction false} SamplesAtMostGroups(groups: seq<Entry>)
    ensures |SamplesOf(groups)| <= |groups|
  {
    if groups != [] {
      SamplesAtMostGroups(groups[..|groups| - 1]);
    }
  }

  // ----- Evidence -----

  /** The windows of the newest identity, oldest first, and what was left out. */
  datatype Evidence = Evidence(identity: string, samples: seq<CalibrationSample>, excluded: int)

  function TargetIdentity(items: seq<CalibrationObservation>, active: string): string {
    if items == [] then active else items[|items| - 1].identity
  }

  function EvidenceOf(observations: seq<CalibrationObservation>, active: string): Evidence {
    var normal := Normalized(Sort(observations, NoLaterThan));
    var identity := TargetIdentity(normal, active);
    var kept := Retained(normal, identity);
    var groups := GroupsOf(Sort(observations, NoLaterThan), identity);
    var samples := SamplesOf(groups);
    Evidence(identity, Sort(samples, StartsNoLater), Ungrouped(kept) + |groups| - |samples|)
  }

  method GatherEvidence(observations: seq<CalibrationObservation>, active: string) returns (e: Evidence)
    ensures e == EvidenceOf(observations, active)
  {
    var sorted := Sort(observations, NoLaterThan);
    var items := new CalibrationObservation[|sorted|](i requires 0 <= i < |sorted| => sorted[i]);
    assert items[..] == sorted;
    NormalizeResetJitter(items);
    var identity := TargetIdentity(items[..], active);
    var kept := Retained(items[..], identity);
    var groups, excluded := GroupObservations(kept);
    var samples, unsampled := CollectSamples(groups);
    e := Evidence(identity, Sort(samples, StartsNoLater), excluded + unsampled);
  }

  /** With distinct observation times, the order of arrival is irrelevant to the evidence. */
  lemma EvidenceIgnoresArrival(a: seq<CalibrationObservation>, b: seq<CalibrationObservation>, active: string)
    requires multiset(a) == multiset(b)
    requires forall x, y :: x in a && y in a && x.at == y.at ==> x == y
    ensures EvidenceOf(a, active) == EvidenceOf(b, active)
  {
    SortIgnoresArrival(a, b, NoLaterThan);
  }

  // ----- Statistics -----

  /** The estimator's input: the eligible samples, weighted by their five-hour movement. */
  function EstimatorInput(samples: seq<CalibrationSample>): seq<Sample> {
    if samples == [] then []
    else
      var s := samples[|samples| - 1];
      EstimatorInput(samples[..|samples| - 1]) + (if s.eligible then [Sample(s.implied, s.fiveDelta)] else [])
  }

  function Values(input: seq<Sample>): seq<real> {
    if input == [] then [] else Values(input[..|input| - 1]) + [input[|input| - 1].value]
  }

  predicate RealAtMost(a: real, b: real) { a <= b }

  function NextRank(position: real): int {
    if position == position.Floor as real then position.Floor else position.Floor + 1
  }

  /** Linear interpolation between the two nearest ranks. */
  function Interpolate(values: seq<real>, position: real): real
    requires values != [] && 0.0 <= position <= (|values| - 1) as real
  {
    var weight := position - position.Floor as real;
    values[position.Floor] * (1.0 - weight) + values[NextRank(position)] * weight
  }

  function Times(a: real, b: real): real { a * b }

  lemma TimesGrows(p: real, q: real, n: real)
    requires p <= q && 0.0 <= n
    ensures Times(p, n) <= Times(q, n)
  {
    var d := q - p;
    assert d * n >= 0.0;
    assert q * n == p * n + d * n;
  }

  lemma TimesUnits(n: real)
    ensures Times(0.0, n) == 0.0 && Times(1.0, n) == n
  {
  }

  function Position(fraction: real, last: nat): (r: real)
    requires 0.0 <= fraction <= 1.0
    ensures 0.0 <= r <= last as real
  {
    TimesUnits(last as real);
    TimesGrows(0.0, fraction, last as real);
    TimesGrows(fraction, 1.0, last as real);
    Times(fraction, last as real)
  }

  lemma PositionGrows(p: real, q: real, last: nat)
    requires 0.0 <= p <= q <= 1.0
    ensures Position(p, last) <= Position(q, last)
  {
    TimesGrows(p, q, last as real);
  }

  function Percentile(values: seq<real>, fraction: real): Option<real>
    requires 0.0 <= fraction <= 1.0
  {
    if values == [] then None else Some(Interpolate(values, Position(fraction, |values| - 1)))
  }

  lemma Between(a: real, b: real, w: real)
    requires a <= b && 0.0 <= w <= 1.0
    ensures a <= a * (1.0 - w) + b * w <= b
  {
    assert a * (1.0 - w) + b * w == a + (b - a) * w == b - (b - a) * (1.0 - w);
  }

  lemma InterpolationGrows(a: real, b: real, v: real, w: real)
    requires a <= b && v <= w
    ensures a * (1.0 - v) + b * v <= a * (1.0 - w) + b * w
  {
    assert a * (1.0 - w) + b * w - (a * (1.0 - v) + b * v) == (b - a) * (w - v);
  }

  lemma InterpolateInRange(values: seq<real>, position: real)
    requires Sorted(values, RealAtMost) && values != [] && 0.0 <= position <= (|values| - 1) as real
    ensures values[position.Floor] <= Interpolate(values, position) <= values[NextRank(position)]
  {
    assert position.Floor == NextRank(position) || RealAtMost(values[position.Floor], values[NextRank(position)]);
    Between(values[position.Floor], values[NextRank(position)], position - position.Floor as real);
  }

  lemma InterpolateMonotone(values: seq<real>, p: real, q: real)
    requires Sorted(values, RealAtMost) && values != [] && 0.0 <= p <= q <= (|values| - 1) as real
    ensures Interpolate(values, p) <= Interpolate(values, q)
  {
    if p.Floor < q.Floor {
      InterpolateInRange(values, p);
      InterpolateInRange(values, q);
      assert NextRank(p) == q.Floor || RealAtMost(values[NextRank(p)], values[q.Floor]);
    } else if p == q.Floor as real {
      InterpolateInRange(values, q);
      assert p.Floor == q.Floor;
    } else {
      var k := p.Floor;
      assert RealAtMost(values[k], values[k + 1]);
      InterpolationGrows(values[k], values[k + 1], p - k as real, q - k as real);
    }
  }

  /** Percentiles of ordered values rise with the fraction. */
  lemma PercentileGrows(values: seq<real>, p: real, q: real)
    requires Sorted(values, RealAtMost) && values != [] && 0.0 <= p <= q <= 1.0
    ensures Percentile(values, p).value <= Percentile(values, q).value
  {
    PositionGrows(p, q, |values| - 1);
    InterpolateMonotone(values, Position(p, |values| - 1), Position(q, |values| - 1));
  }

  // ----- The report -----

  const MINIMUM_RECOMMENDATION_SAMPLES: nat := 5

  datatype Report = Report(
    identity: string,
    sampleCount: nat,
    weightedMedian: Option<real>,
    q1: Option<real>,
    median: Option<real>,
    q3: Option<real>,
    relativeIqr: Option<real>,
    drift: Option<real>,
    proposed: Option<real>,
    recommendChange: bool,
    confirmations: nat,
    samples: seq<CalibrationSample>)

  function CountQuality(samples: seq<CalibrationSample>, q: Quality): nat {
    if samples == [] then 0
    else CountQuality(samples[..|samples| - 1], q) + (if samples[|samples| - 1].quality == q then 1 else 0)
  }

  function QualifyingCount(samples: seq<CalibrationSample>): nat {
    CountQuality(samples, Useful) + CountQuality(samples, High)
  }

  /** The weighted median, once enough windows qualify. */
  function Proposed(samples: seq<CalibrationSample>): Option<real> {
    if QualifyingCount(samples) >= MINIMUM_RECOMMENDATION_SAMPLES then MedianOf(EstimatorInput(samples)) else None
  }

  function ReportOn(e: Evidence, current: Option<Positive>, confirmations: nat): Report {
    var input := EstimatorInput(e.samples);
    var values := Sort(Values(input), RealAtMost);
    var center := MedianOf(input);
    var q1, q3 := Percentile(values, 0.25), Percentile(values, 0.75);
    var relative :=
      if q1.Some? && q3.Some? && center.Some? && center.value > 0.0
      then Some((q3.value - q1.value) / center.value) else None;
    var drift :=
      if current.Some? && center.Some? then Some((center.value - current.value) / current.value * 100.0) else None;
    var count, proposed := QualifyingCount(e.samples), Proposed(e.samples);
    var lowSpread := relative.Some? && relative.value <= 0.25;
    var enoughDrift := drift.Some? && AbsReal(drift.value) >= 10.0;
    Report(e.identity, count, center, q1, Percentile(values, 0.5), q3, relative, drift, proposed,
           proposed.Some? && enoughDrift && lowSpread && confirmations >= 2, confirmations, e.samples)
  }

  method BuildReport(observations: seq<CalibrationObservation>, active: string, current: Option<Positive>,
                     confirmations: nat)
    returns (r: Report)
    ensures r == ReportOn(EvidenceOf(observations, active), current, confirmations)
  {
    var e := GatherEvidence(observations, active);
    r := ReportOn(e, current, confirmations);
  }

  lemma {:induction false} InputIsEligible(samples: seq<CalibrationSample>)
    ensures |EstimatorInput(samples)| == QualifyingCount(samples)
    ensures forall s :: s in EstimatorInput(samples) ==> s.value > 0.0
    ensures |Values(EstimatorInput(samples))| == |EstimatorInput(samples)|
  {
    if samples != [] {
      InputIsEligible(samples[..|samples| - 1]);
    }
    ValuesLength(EstimatorInput(samples));
  }

  lemma {:induction false} ValuesLength(input: seq<Sample>)
    ensures |Values(input)| == |input|
  {
    if input != [] {
      ValuesLength(input[..|input| - 1]);
    }
  }

  lemma {:induction false} ProposedExactly(samples: seq<CalibrationSample>)
    ensures Proposed(samples).Some? <==> QualifyingCount(samples) >= MINIMUM_RECOMMENDATION_SAMPLES
    ensures Proposed(samples).Some? ==>
              Proposed(samples).value > 0.0 && IsWeightedMedian(EstimatorInput(samples), Proposed(samples).value)
    ensures MedianOf(EstimatorInput(samples)).Some? <==> QualifyingCount(samples) > 0
  {
    InputIsEligible(samples);
    MedianIsMedian(EstimatorInput(samples));
  }

  /** A candidate is proposed exactly from five qualifying windows on, and it is a positive weighted median. */
  lemma CandidateExactly(e: Evidence, current: Option<Positive>, confirmations: nat)
    ensures var r := ReportOn(e, current, confirmations);
            && (r.proposed.Some? <==> r.sampleCount >= MINIMUM_RECOMMENDATION_SAMPLES)
            && (r.proposed.Some? ==> r.proposed.value > 0.0
                                     && IsWeightedMedian(EstimatorInput(e.samples), r.proposed.value))
            && (r.weightedMedian.Some? <==> r.sampleCount > 0)
  {
    ProposedExactly(e.samples);
  }

  lemma {:induction false} QuartilesGrow(values: seq<real>)
    requires values != []
    ensures var sorted := Sort(values, RealAtMost);
            Percentile(sorted, 0.25).value <= Percentile(sorted, 0.5).value <= Percentile(sorted, 0.75).value
  {
    var sorted := Sort(values, RealAtMost);
    SortSorted(values, RealAtMost);
    PercentileGrows(sorted, 0.25, 0.5);
    PercentileGrows(sorted, 0.5, 0.75);
  }

  lemma RatioIsNotNegative(spread: real, center: Positive)
    requires spread >= 0.0
    ensures spread / center >= 0.0
  {
  }

  /** The quartiles are ordered, so the relative spread is never negative. */
  lemma QuartilesAreOrdered(e: Evidence, current: Option<Positive>, confirmations: nat)
    ensures var r := ReportOn(e, current, confirmations);
            && (r.sampleCount > 0 <==> r.q1.Some? && r.median.Some? && r.q3.Some? && r.relativeIqr.Some?)
            && (r.sampleCount > 0 ==> r.q1.value <= r.median.value <= r.q3.value && r.relativeIqr.value >= 0.0)
  {
    var r := ReportOn(e, current, confirmations);
    InputIsEligible(e.samples);
    MedianIsMedian(EstimatorInput(e.samples));
    if r.sampleCount > 0 {
      QuartilesGrow(Values(EstimatorInput(e.samples)));
      RatioIsNotNegative(r.q3.value - r.q1.value, r.weightedMedian.value);
    }
  }

  lemma ScaledDrift(center: real, current: Positive)
    ensures AbsReal((center - current) / current * 100.0) >= 10.0 <==> 10.0 * AbsReal(center - current) >= current
  {
    var d := (center - current) / current;
    assert d * current == center - current;
    if d >= 0.1 {
      assert (d - 0.1) * current >= 0.0;
    } else if d <= -0.1 {
      assert (-0.1 - d) * current >= 0.0;
    } else {
      assert (d - 0.1) * current < 0.0 && (d + 0.1) * current > 0.0;
    }
  }

  lemma ScaledSpread(spread: real, center: Positive)
    ensures spread / center <= 0.25 <==> 4.0 * spread <= center
  {
    var d := spread / center;
    assert d * center == spread;
    if d <= 0.25 {
      assert (0.25 - d) * center >= 0.0;
    } else {
      assert (d - 0.25) * center > 0.0;
    }
  }

  /**
    A change is recommended exactly when five windows qualify, the candidate is at
    least a tenth of the current value away from it, the middle half of the
    values spans at most a quarter of the candidate, and it was confirmed twice.
  */
  lemma RecommendedExactly(e: Evidence, current: Option<Positive>, confirmations: nat)
    ensures var r := ReportOn(e, current, confirmations);
            r.recommendChange
            <==> && r.sampleCount >= 5 && confirmations >= 2 && current.Some?
                 && r.proposed.Some? && r.q1.Some? && r.q3.Some?
                 && 10.0 * AbsReal(r.proposed.value - current.value) >= current.value
                 && 4.0 * (r.q3.value - r.q1.value) <= r.proposed.value
  {
    var r := ReportOn(e, current, confirmations);
    CandidateExactly(e, current, confirmations);
    QuartilesAreOrdered(e, current, confirmations);
    if r.sampleCount >= 5 {
      ScaledSpread(r.q3.value - r.q1.value, r.proposed.value);
      if current.Some? {
        ScaledDrift(r.proposed.value, current.value);
      }
    }
  }
}
