/**
  What the figures of a calibration report mean (`build_report` in
  `src/calibration.rs`), stated of the observations, groups and samples themselves.
*/
module CalibrationFigures {
  import opened Options
  import opened UsageModel
  import opened Sorting
  import opened WeightedMedian
  import opened CalibrationGroups
  import opened CalibrationReport

  // ----- Identity and samples -----

  lemma TimesAreOrdered()
    ensures IsTotalPreorder(NoLaterThan) && IsTotalPreorder(RealAtMost)
  {
  }

  /** The report is about the newest observation's identity; among equally new ones the last to arrive decides. */
  lemma {:induction false} IdentityIsNewest(observations: seq<CalibrationObservation>, active: string, j: int)
    requires IsLast(observations, NoLaterThan, j)
    ensures EvidenceOf(observations, active).identity == observations[j].identity
  {
    TimesAreOrdered();
    var i, k := SortEnds(observations, NoLaterThan);
    EndsAreUnique(observations, NoLaterThan, k, j);
    NormalizationMovesLittle(Sort(observations, NoLaterThan), |observations| - 1);
  }

  /**
    A group yields a sample exactly when both windows show movement between its
    first and its last reading, and the sample is that movement.
  */
  lemma {:induction false} SampleExactly(group: seq<CalibrationObservation>, i: int, j: int)
    requires IsFirst(group, NoLaterThan, i) && IsLast(group, NoLaterThan, j)
    ensures var (first, last) := (group[i], group[j]);
            && (SampleOf(group).Some? <==>
                  && |group| >= 2
                  && first.fiveHour.Some? && last.fiveHour.Some? && first.weekly.Some? && last.weekly.Some?
                  && first.fiveHour.value.used < last.fiveHour.value.used
                  && first.weekly.value.used < last.weekly.value.used)
            && (SampleOf(group).Some? ==>
                  var s := SampleOf(group).value;
                  && s.start == first.at && s.end == last.at
                  && first.fiveHour.value.used + s.fiveDelta == last.fiveHour.value.used
                  && first.weekly.value.used + s.weeklyDelta == last.weekly.value.used
                  && s.implied * s.fiveDelta == s.weeklyDelta * 100.0)
  {
    TimesAreOrdered();
    var a, b := SortEnds(group, NoLaterThan);
    EndsAreUnique(group, NoLaterThan, a, i);
    EndsAreUnique(group, NoLaterThan, b, j);
    var first, last := group[i], group[j];
    if |group| >= 2 && first.fiveHour.Some? && last.fiveHour.Some? && first.weekly.Some? && last.weekly.Some? {
      var five: real := last.fiveHour.value.used - first.fiveHour.value.used;
      var weekly: real := last.weekly.value.used - first.weekly.value.used;
      if five > 0.0 {
        QuotientSign(weekly, five);
      }
    }
  }

  lemma QuotientSign(weekly: real, five: Positive)
    ensures weekly * 100.0 / five > 0.0 <==> weekly > 0.0
    ensures (weekly * 100.0 / five) * five == weekly * 100.0
  {
  }

  /** What each group yields, in the order of the groups. */
  function Found(groups: seq<Entry>): (found: seq<Option<CalibrationSample>>)
    ensures |found| == |groups|
  {
    if groups == [] then [] else [SampleOf(groups[0].members)] + Found(groups[1..])
  }

  lemma {:induction false} FoundAppend(groups: seq<Entry>, g: Entry)
    ensures Found(groups + [g]) == Found(groups) + [SampleOf(g.members)]
  {
    if groups == [] {
      var one := [g];
      assert groups + [g] == one && one[1..] == [];
    } else {
      FoundAppend(groups[1..], g);
      assert (groups + [g])[1..] == groups[1..] + [g];
    }
  }

  lemma {:induction false} SamplesAppend(groups: seq<Entry>, g: Entry)
    ensures SamplesOf(groups + [g])
            == if SampleOf(g.members).Some? then SamplesOf(groups) + [SampleOf(g.members).value] else SamplesOf(groups)
  {
    assert (groups + [g])[..|groups|] == groups;
  }

  /** The samples are what the groups yield, as often as they yield it. */
  ghost predicate Collected(samples: seq<CalibrationSample>, found: seq<Option<CalibrationSample>>) {
    forall s :: multiset(samples)[s] == multiset(found)[Some(s)]
  }

  lemma CollectOneMore(samples: seq<CalibrationSample>, found: seq<Option<CalibrationSample>>,
                       result: Option<CalibrationSample>)
    requires Collected(samples, found)
    ensures Collected(if result.Some? then samples + [result.value] else samples, found + [result])
  {
  }

  lemma {:induction false} SamplesOneMore(groups: seq<Entry>, g: Entry)
    requires Collected(SamplesOf(groups), Found(groups))
    ensures Collected(SamplesOf(groups + [g]), Found(groups + [g]))
  {
    FoundAppend(groups, g);
    SamplesAppend(groups, g);
    CollectOneMore(SamplesOf(groups), Found(groups), SampleOf(g.members));
  }

  lemma {:induction false} SamplesExactly(groups: seq<Entry>)
    ensures Collected(SamplesOf(groups), Found(groups))
  {
    if groups != [] {
      var init, g := groups[..|groups| - 1], groups[|groups| - 1];
      assert init + [g] == groups;
      SamplesExactly(init);
      SamplesOneMore(init, g);
    }
  }

  /**
    The samples of the report are those of the groups of the newest identity,
    oldest first, and every other group and every observation outside the groups
    is counted as excluded.
  */
  lemma {:induction false} EvidenceExactly(observations: seq<CalibrationObservation>, active: string)
    ensures var e := EvidenceOf(observations, active);
            var kept := Retained(Normalized(Sort(observations, NoLaterThan)), e.identity);
            var groups := GroupsOf(Sort(observations, NoLaterThan), e.identity);
            && Collected(e.samples, Found(groups))
            && (forall i, j :: 0 <= i < j < |e.samples| ==> e.samples[i].start <= e.samples[j].start)
            && e.excluded == (|groups| - |e.samples|) + (|kept| - AllMembers(groups))
  {
    var e := EvidenceOf(observations, active);
    var groups := GroupsOf(Sort(observations, NoLaterThan), e.identity);
    SamplesExactly(groups);
    SortPermutes(SamplesOf(groups), StartsNoLater);
    SortSorted(SamplesOf(groups), StartsNoLater);
    GroupedExactly(Retained(Normalized(Sort(observations, NoLaterThan)), e.identity), (0, 0));
    assert forall i, j :: 0 <= i < j < |e.samples| ==> StartsNoLater(e.samples[i], e.samples[j]);
  }

  // ----- The centre -----

  /** The five-hour movement of the eligible samples whose implied value passes the test. */
  function Movement(samples: seq<CalibrationSample>, test: real -> bool): real {
    if samples == [] then 0.0
    else Movement(samples[1..], test) + if samples[0].eligible && test(samples[0].implied) then samples[0].fiveDelta else 0.0
  }

  /**
    Half of all eligible five-hour movement is at windows that imply at most
    `v`, less than half is below it, and an eligible window implies it.
  */
  ghost predicate IsCentre(samples: seq<CalibrationSample>, v: real) {
    && (exists s :: s in samples && s.eligible && s.implied == v)
    && 2.0 * Movement(samples, x => x <= v) >= Movement(samples, _ => true)
    && 2.0 * Movement(samples, x => x < v) < Movement(samples, _ => true)
  }

  function Passing(test: real -> bool): Sample -> real {
    (s: Sample) => if test(s.value) then s.weight else 0.0
  }

  lemma {:induction false} InputAppend(samples: seq<CalibrationSample>, s: CalibrationSample)
    ensures EstimatorInput(samples + [s]) ==
            if s.eligible then EstimatorInput(samples) + [Sample(s.implied, s.fiveDelta)] else EstimatorInput(samples)
  {
    assert (samples + [s])[..|samples|] == samples;
  }

  lemma {:induction false} MovementAppend(samples: seq<CalibrationSample>, s: CalibrationSample, test: real -> bool)
    ensures Movement(samples + [s], test) == Movement(samples, test) + if s.eligible && test(s.implied) then s.fiveDelta else 0.0
  {
    if samples == [] {
      assert samples + [s] == [s];
      var one := [s];
      assert one[1..] == [];
    } else {
      MovementAppend(samples[1..], s, test);
      assert (samples + [s])[1..] == samples[1..] + [s];
    }
  }

  lemma {:induction false} InputWeighsMovement(samples: seq<CalibrationSample>, test: real -> bool)
    ensures Total(EstimatorInput(samples), Passing(test)) == Movement(samples, test)
  {
    if samples != [] {
      var init, s := samples[..|samples| - 1], samples[|samples| - 1];
      assert init + [s] == samples;
      InputWeighsMovement(init, test);
      InputAppend(init, s);
      MovementAppend(init, s, test);
      if s.eligible {
        TotalAppend(EstimatorInput(init), Sample(s.implied, s.fiveDelta), Passing(test));
      }
    }
  }

  lemma {:induction false} SameMeasure(input: seq<Sample>, f: Sample -> real, g: Sample -> real)
    requires forall s :: f(s) == g(s)
    ensures Total(input, f) == Total(input, g)
  {
    if input != [] {
      SameMeasure(input[..|input| - 1], f, g);
    }
  }

  lemma {:induction false} InputFromSamples(samples: seq<CalibrationSample>, x: Sample)
    requires x in EstimatorInput(samples)
    ensures exists s :: s in samples && s.eligible && s.implied == x.value
  {
    var init, s := samples[..|samples| - 1], samples[|samples| - 1];
    assert init + [s] == samples;
    InputAppend(init, s);
    if x in EstimatorInput(init) {
      InputFromSamples(init, x);
    }
  }

  lemma {:induction false} MedianIsCentre(samples: seq<CalibrationSample>, v: real)
    requires IsWeightedMedian(EstimatorInput(samples), v)
    ensures IsCentre(samples, v)
  {
    var input := EstimatorInput(samples);
    InputWeighsMovement(samples, x => x <= v);
    InputWeighsMovement(samples, x => x < v);
    InputWeighsMovement(samples, _ => true);
    SameMeasure(input, WeightUpTo(v), Passing(x => x <= v));
    SameMeasure(input, WeightBelow(v), Passing(x => x < v));
    SameMeasure(input, Weight(), Passing(_ => true));
    var x :| x in input && x.value == v;
    InputFromSamples(samples, x);
  }

  // ----- The spread -----

  /** The implied values of the eligible samples, as often as they occur. */
  function EligibleValues(samples: seq<CalibrationSample>): multiset<real> {
    if samples == [] then multiset{}
    else EligibleValues(samples[1..]) + if samples[0].eligible then multiset{samples[0].implied} else multiset{}
  }

  lemma {:induction false} EligibleAppend(samples: seq<CalibrationSample>, s: CalibrationSample)
    ensures EligibleValues(samples + [s])
            == EligibleValues(samples) + if s.eligible then multiset{s.implied} else multiset{}
  {
    if samples == [] {
      var one := [s];
      assert samples + [s] == one && one[1..] == [];
    } else {
      EligibleAppend(samples[1..], s);
      assert (samples + [s])[1..] == samples[1..] + [s];
    }
  }

  lemma {:induction false} ValuesAppend(input: seq<Sample>, x: Sample)
    ensures Values(input + [x]) == Values(input) + [x.value]
  {
    assert (input + [x])[..|input|] == input;
  }

  lemma {:induction false} ValuesAreEligible(samples: seq<CalibrationSample>)
    ensures multiset(Values(EstimatorInput(samples))) == EligibleValues(samples)
  {
    if samples != [] {
      var init, s := samples[..|samples| - 1], samples[|samples| - 1];
      assert init + [s] == samples;
      ValuesAreEligible(init);
      InputAppend(init, s);
      EligibleAppend(init, s);
      if s.eligible {
        ValuesAppend(EstimatorInput(init), Sample(s.implied, s.fiveDelta));
      }
    }
  }

  /** Between two neighbouring ranks a percentile follows the straight line through their values. */
  lemma PercentileIsLinear(values: seq<real>, fraction: real, position: real, k: nat)
    requires 0.0 <= fraction <= 1.0 && k + 1 < |values|
    requires position == fraction * (|values| - 1) as real
    requires k as real <= position <= (k + 1) as real
    ensures Percentile(values, fraction) == Some(values[k] + (position - k as real) * (values[k + 1] - values[k]))
  {
    assert Position(fraction, |values| - 1) == position;
    InterpolateBetween(values, position, k);
  }

  lemma InterpolateBetween(values: seq<real>, position: real, k: nat)
    requires k + 1 < |values| && k as real <= position <= (k + 1) as real
    ensures Interpolate(values, position) == values[k] + (position - k as real) * (values[k + 1] - values[k])
  {
    var w := position - k as real;
    if w == 0.0 {
      assert position.Floor == k == NextRank(position);
      Weigh(values[k], values[k], 0.0);
    } else if w == 1.0 {
      assert position.Floor == k + 1 == NextRank(position);
      Weigh(values[k + 1], values[k + 1], 0.0);
      Weigh(values[k], values[k + 1], w);
    } else {
      assert position.Floor == k && NextRank(position) == k + 1;
      Weigh(values[k], values[k + 1], w);
    }
  }

  lemma Weigh(a: real, b: real, w: real)
    ensures a * (1.0 - w) + b * w == a + w * (b - a)
    ensures w == 1.0 ==> a + w * (b - a) == b
  {
  }

  // ----- The report -----

  /** The ordered values of the report: any ordering of the eligible samples' implied values. */
  ghost predicate OrderedValues(samples: seq<CalibrationSample>, values: seq<real>) {
    Sorted(values, RealAtMost) && multiset(values) == EligibleValues(samples)
  }

  lemma {:induction false} ValuesAreUnique(samples: seq<CalibrationSample>, values: seq<real>)
    requires OrderedValues(samples, values)
    ensures values == Sort(Values(EstimatorInput(samples)), RealAtMost)
  {
    TimesAreOrdered();
    var input := Values(EstimatorInput(samples));
    ValuesAreEligible(samples);
    SortPermutes(input, RealAtMost);
    SortSorted(input, RealAtMost);
    SortedUnique(values, Sort(input, RealAtMost), RealAtMost);
  }

  /**
    The report's centre is where half of the eligible five-hour movement is
    reached, and the candidate is the centre from five eligible windows on.
  */
  lemma CentreExactly(e: Evidence, current: Option<Positive>, confirmations: nat)
    ensures var r, n := ReportOn(e, current, confirmations), |EligibleValues(e.samples)|;
            && r.sampleCount == n
            && (r.weightedMedian.Some? <==> n > 0)
            && (r.weightedMedian.Some? ==> IsCentre(e.samples, r.weightedMedian.value))
            && r.proposed == if n >= 5 then r.weightedMedian else None
  {
    var input := EstimatorInput(e.samples);
    InputIsEligible(e.samples);
    ValuesAreEligible(e.samples);
    assert |multiset(Values(input))| == |Values(input)|;
    MedianIsMedian(input);
    if input != [] {
      MedianIsCentre(e.samples, MedianOf(input).value);
    }
  }

  /** The quartiles of the report are those of the eligible samples' implied values. */
  lemma QuartilesExactly(e: Evidence, current: Option<Positive>, confirmations: nat, values: seq<real>)
    requires OrderedValues(e.samples, values)
    ensures var r := ReportOn(e, current, confirmations);
            r.q1 == Percentile(values, 0.25) && r.median == Percentile(values, 0.5) && r.q3 == Percentile(values, 0.75)
  {
    ValuesAreUnique(e.samples, values);
  }

  lemma CentreIsPositive(e: Evidence, current: Option<Positive>, confirmations: nat)
    ensures var r := ReportOn(e, current, confirmations);
            && (r.weightedMedian.Some? <==> r.sampleCount > 0)
            && (r.weightedMedian.Some? ==> r.weightedMedian.value > 0.0)
  {
    var input := EstimatorInput(e.samples);
    InputIsEligible(e.samples);
    MedianIsMedian(input);
  }

  /** The centre by itself, and the spread as it is computed from it. */
  lemma SpreadParts(e: Evidence, current: Option<Positive>, confirmations: nat) returns (r: Report, centre: Positive)
    requires ReportOn(e, current, confirmations).sampleCount > 0
    ensures r == ReportOn(e, current, confirmations) && r.weightedMedian == Some(centre)
    ensures r.q1.Some? && r.q3.Some? && r.relativeIqr == Some((r.q3.value - r.q1.value) / centre)
  {
    CentreIsPositive(e, current, confirmations);
    QuartilesAreOrdered(e, current, confirmations);
    r := ReportOn(e, current, confirmations);
    centre := r.weightedMedian.value;
  }

  lemma SpreadTimesCentre(r: Report, centre: Positive)
    requires r.q1.Some? && r.q3.Some? && r.relativeIqr == Some((r.q3.value - r.q1.value) / centre)
    ensures r.relativeIqr.value * centre == r.q3.value - r.q1.value
  {
    Quotient(r.q3.value - r.q1.value, centre);
  }

  ghost predicate SpreadIsRelative(r: Report) {
    && r.weightedMedian.Some? && r.q1.Some? && r.q3.Some? && r.relativeIqr.Some?
    && r.relativeIqr.value * r.weightedMedian.value == r.q3.value - r.q1.value
  }

  /** The spread exists as soon as a window is eligible, and is relative to the centre. */
  lemma SpreadExactly(e: Evidence, current: Option<Positive>, confirmations: nat)
    ensures ReportOn(e, current, confirmations).relativeIqr.Some? <==> ReportOn(e, current, confirmations).sampleCount > 0
    ensures ReportOn(e, current, confirmations).sampleCount > 0 ==> SpreadIsRelative(ReportOn(e, current, confirmations))
  {
    QuartilesAreOrdered(e, current, confirmations);
    if ReportOn(e, current, confirmations).sampleCount > 0 {
      var r, centre := SpreadParts(e, current, confirmations);
      SpreadTimesCentre(r, centre);
    } else {
      CentreIsPositive(e, current, confirmations);
    }
  }

  /** The drift is that of the centre from the current calibration, in percent. */
  lemma DriftExactly(e: Evidence, current: Option<Positive>, confirmations: nat)
    ensures var r := ReportOn(e, current, confirmations);
            && (r.drift.Some? <==> r.sampleCount > 0 && current.Some?)
            && (r.drift.Some? ==> r.weightedMedian.Some?
                                  && r.drift.value * current.value == 100.0 * (r.weightedMedian.value - current.value))
  {
    CentreIsPositive(e, current, confirmations);
    var r := ReportOn(e, current, confirmations);
    if r.drift.Some? {
      Percent(r.weightedMedian.value - current.value, current.value);
    }
  }

  lemma Quotient(a: real, b: Positive)
    ensures a / b * b == a
  {
  }

  lemma Percent(a: real, b: Positive)
    ensures (a / b * 100.0) * b == 100.0 * a
  {
    Quotient(a, b);
    assert (a / b * 100.0) * b == 100.0 * (a / b * b);
  }

  /** There is one centre only, so the candidate is determined by the samples. */
  lemma CandidateIsCentre(e: Evidence, current: Option<Positive>, confirmations: nat, v: real)
    requires ReportOn(e, current, confirmations).proposed.Some?
    ensures ReportOn(e, current, confirmations).proposed.value == v <==> IsCentre(e.samples, v)
  {
    CandidateExactly(e, current, confirmations);
    var p := ReportOn(e, current, confirmations).proposed.value;
    MedianIsCentre(e.samples, p);
    if IsCentre(e.samples, v) {
      if p < v {
        MovementCompares(e.samples, p, v);
      } else if v < p {
        MovementCompares(e.samples, v, p);
      }
    }
  }

  lemma {:induction false} MovementCompares(samples: seq<CalibrationSample>, v: real, w: real)
    requires v < w
    ensures Movement(samples, x => x <= v) <= Movement(samples, x => x < w)
  {
    if samples != [] {
      MovementCompares(samples[1..], v, w);
    }
  }
}
