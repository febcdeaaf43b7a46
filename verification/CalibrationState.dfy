/**
  The stored drift confirmations of `src/persistence/calibration_state.rs`.  Each
  analysis of an identity compares its evidence with the row the previous one
  left; a replacement is recommended only once the count reaches two.
*/
module CalibrationState {
  import opened Options
  import opened UsageModel
  import opened WeightedMedian
  import opened CalibrationGroups
  import opened CalibrationReport

  /** What one analysis contributes to the row of its identity. */
  datatype Outcome = Outcome(identity: string, sampleCount: nat, candidate: Option<Positive>)

  type Analysis = a: Outcome | a.candidate.Some? <==> a.sampleCount >= MINIMUM_RECOMMENDATION_SAMPLES
    witness Outcome("", 0, None)

  datatype Row = Row(lastSampleCount: nat, candidate: Option<Positive>, confirmations: nat)

  function AnalysisOf(e: Evidence): Analysis {
    ProposedExactly(e.samples);
    var proposed := Proposed(e.samples);
    Outcome(e.identity, QualifyingCount(e.samples),
            if proposed.Some? && proposed.value > 0.0 then Some(proposed.value) else None)
  }

  /** Two candidates within two percent of the earlier one. */
  predicate Close(earlier: Positive, later: Positive) {
    AbsReal((later - earlier) / earlier) <= 0.02
  }

  function NextRow(previous: Option<Row>, a: Analysis): Row {
    var previousCount := if previous.Some? then previous.value.lastSampleCount else 0;
    var stored := if previous.Some? then previous.value.confirmations else 0;
    var confirmations :=
      if a.candidate.None? then 0
      else if a.sampleCount <= previousCount then stored
      else if previous.Some? && previous.value.candidate.Some?
              && Close(previous.value.candidate.value, a.candidate.value) then stored + 1
      else 1;
    Row(a.sampleCount, a.candidate, confirmations)
  }

  function Stored(rows: map<string, Row>, identity: string): Option<Row> {
    if identity in rows then Some(rows[identity]) else None
  }

  predicate IsKnown(table: seq<CalibrationObservation>, sourceKey: string) {
    exists i :: 0 <= i < |table| && table[i].sourceKey == sourceKey
  }

  function WithObservation(table: seq<CalibrationObservation>, o: CalibrationObservation): seq<CalibrationObservation> {
    if IsKnown(table, o.sourceKey) then table else table + [o]
  }

  class AnalysisStore {
    var observations: seq<CalibrationObservation>
    var rows: map<string, Row>

    constructor ()
      ensures observations == [] && rows == map[]
    {
      observations, rows := [], map[];
    }

    /** Observations are inserted or ignored, and never deleted. */
    method Observe(o: CalibrationObservation) returns (inserted: bool)
      modifies this`observations
      ensures observations == WithObservation(old(observations), o)
      ensures inserted <==> observations == old(observations) + [o]
    {
      inserted := !IsKnown(observations, o.sourceKey);
      if inserted {
        observations := observations + [o];
      }
    }

    /** `active` and `current` are the identity and value of the selected profile. */
    method AnalyzeCalibration(active: string, current: Option<Positive>) returns (report: Report)
      modifies this`rows
      ensures var e := EvidenceOf(observations, active);
              && rows == old(rows)[e.identity := NextRow(Stored(old(rows), e.identity), AnalysisOf(e))]
              && report == ReportOn(e, current, rows[e.identity].confirmations)
    {
      var analysis := Analyse(active, current);
      var confirmations := ConfirmationCount(Stored(rows, analysis.identity), analysis);
      report := BuildReport(observations, active, current, confirmations);
      StoreRow(analysis, confirmations);
    }

    /** The preliminary report, and what it contributes to the stored row. */
    method Analyse(active: string, current: Option<Positive>) returns (analysis: Analysis)
      ensures analysis == AnalysisOf(EvidenceOf(observations, active))
      ensures analysis.identity == EvidenceOf(observations, active).identity
    {
      var preliminary := BuildReport(observations, active, current, 0);
      ReportCarriesAnalysis(EvidenceOf(observations, active), current, 0);
      analysis := Outcome(preliminary.identity, preliminary.sampleCount, CandidateOf(preliminary));
    }

    /** The upsert of one row. */
    method StoreRow(analysis: Analysis, confirmations: nat)
      requires Row(analysis.sampleCount, analysis.candidate, confirmations) == NextRow(Stored(rows, analysis.identity), analysis)
      modifies this`rows
      ensures rows == old(rows)[analysis.identity := NextRow(Stored(old(rows), analysis.identity), analysis)]
      ensures rows[analysis.identity].confirmations == confirmations
    {
      rows := rows[analysis.identity := Row(analysis.sampleCount, analysis.candidate, confirmations)];
    }
  }

  function CandidateOf(r: Report): Option<Positive> {
    if r.proposed.Some? && r.proposed.value > 0.0 then Some(r.proposed.value) else None
  }

  /** What a report stores does not depend on the active profile, nor on the count it is given. */
  lemma ReportCarriesAnalysis(e: Evidence, current: Option<Positive>, confirmations: nat)
    ensures var r := ReportOn(e, current, confirmations);
            && Outcome(r.identity, r.sampleCount, CandidateOf(r)) == AnalysisOf(e)
            && r.identity == e.identity && r.confirmations == confirmations
            && (r.proposed.Some? <==> CandidateOf(r).Some?)
  {
    CandidateExactly(e, current, confirmations);
  }

  method ConfirmationCount(previous: Option<Row>, a: Analysis) returns (confirmations: nat)
    ensures Row(a.sampleCount, a.candidate, confirmations) == NextRow(previous, a)
  {
    var previousCount := if previous.Some? then previous.value.lastSampleCount else 0;
    confirmations := if previous.Some? then previous.value.confirmations else 0;
    if a.candidate.Some? {
      if a.sampleCount > previousCount {
        if previous.Some? && previous.value.candidate.Some?
           && Close(previous.value.candidate.value, a.candidate.value) {
          confirmations := confirmations + 1;
        } else {
          confirmations := 1;
        }
      }
    } else {
      confirmations := 0;
    }
  }

  // ----- Runs -----

  /** The row an identity has after its analyses. */
  function RowAfter(h: seq<Analysis>): Option<Row> {
    if h == [] then None else Some(NextRow(RowAfter(h[..|h| - 1]), h[|h| - 1]))
  }

  /** The table after the analyses of every identity. */
  function RowsAfter(run: seq<Analysis>): map<string, Row> {
    if run == [] then map[]
    else
      var before, a := RowsAfter(run[..|run| - 1]), run[|run| - 1];
      before[a.identity := NextRow(Stored(before, a.identity), a)]
  }

  function Of(run: seq<Analysis>, identity: string): seq<Analysis> {
    if run == [] then []
    else
      Of(run[..|run| - 1], identity) + (if run[|run| - 1].identity == identity then [run[|run| - 1]] else [])
  }

  /** Identities do not disturb one another. */
  lemma {:induction false} RowsFollowHistories(run: seq<Analysis>, identity: string)
    ensures Stored(RowsAfter(run), identity) == RowAfter(Of(run, identity))
  {
    if run != [] {
      var init, a := run[..|run| - 1], run[|run| - 1];
      RowsFollowHistories(init, identity);
      if a.identity == identity {
        assert (Of(init, identity) + [a])[..|Of(init, identity)|] == Of(init, identity);
      } else {
        assert Of(run, identity) == Of(init, identity);
      }
    }
  }

  /** The analysis strictly raises the stored sample count. */
  predicate Raises(h: seq<Analysis>, i: nat)
    requires i < |h|
  {
    h[i].candidate.Some? && h[i].sampleCount > (if i == 0 then 0 else h[i - 1].sampleCount)
  }

  /** The analysis proposes a candidate within two percent of the preceding one. */
  predicate Confirms(h: seq<Analysis>, i: nat)
    requires i < |h|
  {
    && i > 0 && h[i - 1].candidate.Some? && h[i].candidate.Some?
    && var (earlier, later) := (h[i - 1].candidate.value, h[i].candidate.value);
       49.0 * earlier <= 50.0 * later <= 51.0 * earlier
  }

  lemma ScaledGap(d: real, earlier: Positive, gap: real)
    requires d * earlier == gap
    ensures d <= 0.02 <==> 50.0 * gap <= earlier
    ensures -0.02 <= d <==> 0.0 <= earlier + 50.0 * gap
  {
    if d > 0.02 {
      assert (d - 0.02) * earlier > 0.0;
    } else {
      assert (0.02 - d) * earlier >= 0.0;
    }
    if d < -0.02 {
      assert (-0.02 - d) * earlier > 0.0;
    } else {
      assert (d + 0.02) * earlier >= 0.0;
    }
  }

  lemma Ratio(gap: real, earlier: Positive)
    ensures gap / earlier * earlier == gap
  {
  }

  /** The stored comparison is that of the candidates, without the division. */
  lemma ConfirmsExactly(h: seq<Analysis>, i: nat)
    requires 0 < i < |h| && h[i - 1].candidate.Some? && h[i].candidate.Some?
    ensures Confirms(h, i) <==> Close(h[i - 1].candidate.value, h[i].candidate.value)
  {
    var earlier: real, later: real := h[i - 1].candidate.value, h[i].candidate.value;
    var gap: real := later - earlier;
    Ratio(gap, earlier);
    ScaledGap(gap / earlier, earlier, gap);
  }

  /** A raise whose candidate confirms nothing starts a new streak. */
  predicate Starts(h: seq<Analysis>, i: nat)
    requires i < |h|
  {
    Raises(h, i) && !Confirms(h, i)
  }

  /** The analysis neither loses the candidate nor starts a new streak. */
  predicate Holds(h: seq<Analysis>, i: nat)
    requires i < |h|
  {
    h[i].candidate.Some? && !Starts(h, i)
  }

  function RaisesFrom(h: seq<Analysis>, s: nat): nat {
    if |h| <= s then 0
    else RaisesFrom(h[..|h| - 1], s) + (if Raises(h, |h| - 1) then 1 else 0)
  }

  /** The row remembers the last analysis, and its count is zero exactly when there is no candidate. */
  lemma {:induction false} CountZeroExactly(h: seq<Analysis>)
    requires h != []
    ensures var row, last := RowAfter(h).value, h[|h| - 1];
            && row.lastSampleCount == last.sampleCount && row.candidate == last.candidate
            && (row.confirmations == 0 <==> row.candidate.None?)
            && (row.confirmations == 0 <==> row.lastSampleCount < MINIMUM_RECOMMENDATION_SAMPLES)
  {
    if |h| > 1 {
      CountZeroExactly(h[..|h| - 1]);
    }
  }

  /** The count is the number of raises since the last one that started a streak. */
  lemma {:induction false} CountIsStreak(h: seq<Analysis>, s: nat)
    requires s < |h| && Starts(h, s) && forall i :: s < i < |h| ==> Holds(h, i)
    ensures RowAfter(h).value.confirmations == RaisesFrom(h, s)
    decreases |h|
  {
    var n := |h| - 1;
    var init := h[..n];
    if n > 0 {
      CountZeroExactly(init);
      if h[n - 1].candidate.Some? && h[n].candidate.Some? {
        ConfirmsExactly(h, n);
      }
    }
    if s < n {
      forall i | s < i < n ensures Holds(init, i) {
        assert Holds(h, i);
      }
      assert Starts(init, s) && Holds(h, n);
      CountIsStreak(init, s);
    } else {
      assert RaisesFrom(init, s) == 0;
    }
  }

  /** Whenever there is a candidate, some analysis started the streak. */
  lemma {:induction false} StreakExists(h: seq<Analysis>) returns (s: nat)
    requires h != [] && h[|h| - 1].candidate.Some?
    ensures s < |h| && Starts(h, s) && forall i :: s < i < |h| ==> Holds(h, i)
  {
    s := |h| - 1;
    if !Starts(h, s) {
      var init := h[..s];
      s := StreakExists(init);
      forall i | s < i < |h| ensures Holds(h, i) {
        assert i < |init| ==> Holds(init, i);
      }
      assert Starts(init, s);
    }
  }

  /** Analysis `j` confirmed a candidate, and nothing since has started over. */
  ghost predicate ConfirmedAt(h: seq<Analysis>, j: nat)
    requires j < |h|
  {
    Raises(h, j) && Confirms(h, j) && forall i :: j < i < |h| ==> Holds(h, i)
  }

  /** An analysis that neither loses the candidate nor starts over leaves earlier confirmations standing. */
  lemma {:induction false} ConfirmedEarlier(h: seq<Analysis>)
    requires h != [] && Holds(h, |h| - 1)
    ensures var n := |h| - 1;
            (exists j | 0 <= j < n :: ConfirmedAt(h[..n], j)) <==> exists j | 0 <= j < n :: ConfirmedAt(h, j)
  {
    var n := |h| - 1;
    var init := h[..n];
    if j :| 0 <= j < n && ConfirmedAt(init, j) {
      forall i | j < i < |h| ensures Holds(h, i) {
        assert i < n ==> Holds(init, i);
      }
      assert ConfirmedAt(h, j);
    }
    if j :| 0 <= j < n && ConfirmedAt(h, j) {
      forall i | j < i < n ensures Holds(init, i) {
        assert Holds(h, i);
      }
      assert ConfirmedAt(init, j);
    }
  }

  /** A count of two is reached exactly by a confirming raise that no later analysis undid. */
  lemma {:induction false} ConfirmedExactly(h: seq<Analysis>)
    requires h != []
    ensures RowAfter(h).value.confirmations >= 2 <==> exists j | 0 <= j < |h| :: ConfirmedAt(h, j)
  {
    var n := |h| - 1;
    var init := h[..n];
    if n > 0 {
      CountZeroExactly(init);
      ConfirmedExactly(init);
      if h[n - 1].candidate.Some? && h[n].candidate.Some? {
        ConfirmsExactly(h, n);
      }
    }
    if h[n].candidate.Some? && Raises(h, n) && Confirms(h, n) {
      assert ConfirmedAt(h, n);
    } else if Holds(h, n) {
      ConfirmedEarlier(h);
    }
  }

  /** A recommendation rests on two analyses that each raised the count, the later confirming its predecessor. */
  lemma {:induction false} RecommendationNeedsTwoRaises(h: seq<Analysis>, e: Evidence, current: Option<Positive>)
    returns (i: nat, j: nat)
    requires h != []
    requires ReportOn(e, current, RowAfter(h).value.confirmations).recommendChange
    ensures i < j < |h| && Raises(h, i) && Raises(h, j) && Confirms(h, j)
    ensures h[i].sampleCount >= MINIMUM_RECOMMENDATION_SAMPLES && h[j].sampleCount > h[j - 1].sampleCount
  {
    ConfirmedExactly(h);
    j :| 0 <= j < |h| && ConfirmedAt(h, j);
    i := StreakExists(h[..j]);
    assert Starts(h[..j], i);
  }

  function Repeated(a: Analysis, k: nat): seq<Analysis> {
    if k == 0 then [] else Repeated(a, k - 1) + [a]
  }

  /** Analysing the same evidence again, however often, changes nothing. */
  lemma {:induction false} ReanalysisIsIdle(h: seq<Analysis>, a: Analysis, k: nat)
    ensures RowAfter(h + Repeated(a, k + 1)) == RowAfter(h + [a])
  {
    var more := h + Repeated(a, k + 1);
    assert more[..|more| - 1] == h + Repeated(a, k);
    assert (h + [a])[..|h|] == h;
    if k > 0 {
      ReanalysisIsIdle(h, a, k - 1);
    } else {
      assert Repeated(a, 1) == [a];
    }
  }

  /**
    Every raise that could come next is more evidence than there ever was exactly
    when no earlier analysis both exceeds the stored count and had a candidate.
  */
  lemma {:induction false} NextRaiseIsNewExactly(h: seq<Analysis>)
    requires h != []
    ensures (forall a: Analysis :: Raises(h + [a], |h|) ==> MoreThanEver(h, a))
            <==> forall i :: 0 <= i < |h| ==>
                   h[i].sampleCount <= h[|h| - 1].sampleCount || h[i].sampleCount < MINIMUM_RECOMMENDATION_SAMPLES
  {
    var stored := h[|h| - 1].sampleCount;
    if i :| 0 <= i < |h| && h[i].sampleCount > stored && h[i].sampleCount >= MINIMUM_RECOMMENDATION_SAMPLES {
      var count := if stored < MINIMUM_RECOMMENDATION_SAMPLES then MINIMUM_RECOMMENDATION_SAMPLES else stored + 1;
      var a: Analysis := Outcome("", count, Some(1.0));
      assert Raises(h + [a], |h|) && !MoreThanEver(h, a);
    }
  }

  predicate MoreThanEver(h: seq<Analysis>, a: Analysis) {
    forall i :: 0 <= i < |h| ==> h[i].sampleCount < a.sampleCount
  }

  /** The stored count follows every analysis down, so evidence that vanishes and comes back confirms itself. */
  lemma ReturningEvidenceConfirmsItself(a: Analysis, fewer: Analysis)
    requires a.candidate.Some? && fewer.candidate == a.candidate && fewer.sampleCount < a.sampleCount
    ensures RowAfter([a, fewer, a]) == Some(Row(a.sampleCount, a.candidate, 2))
  {
    assert [a, fewer, a][..2] == [a, fewer];
    assert [a, fewer][..1] == [a];
    assert RowAfter([a]) == Some(Row(a.sampleCount, a.candidate, 1));
    assert RowAfter([a, fewer]) == Some(Row(fewer.sampleCount, a.candidate, 1));
  }

  // ----- The observations table -----

  /** The table after a run of observations. */
  function Observed(run: seq<CalibrationObservation>): seq<CalibrationObservation> {
    if run == [] then [] else WithObservation(Observed(run[..|run| - 1]), run[|run| - 1])
  }

  /** The observation at `i` is the first of the run with its key. */
  ghost predicate IsFirstOfKey(run: seq<CalibrationObservation>, i: int) {
    0 <= i < |run| && forall j :: 0 <= j < i ==> run[j].sourceKey != run[i].sourceKey
  }

  lemma {:induction false} KeysAreObserved(run: seq<CalibrationObservation>, key: string)
    ensures IsKnown(Observed(run), key) <==> exists i :: 0 <= i < |run| && run[i].sourceKey == key
  {
    if run != [] {
      var init, last := run[..|run| - 1], run[|run| - 1];
      KeysAreObserved(init, key);
      KnownOneMore(Observed(init), last, key);
      if IsKnown(Observed(init), key) {
        var i :| 0 <= i < |init| && init[i].sourceKey == key;
        assert run[i].sourceKey == key;
      }
      if i :| 0 <= i < |run| && run[i].sourceKey == key {
        assert i < |init| ==> init[i].sourceKey == key;
      }
    }
  }

  lemma KnownOneMore(table: seq<CalibrationObservation>, o: CalibrationObservation, key: string)
    ensures IsKnown(WithObservation(table, o), key) <==> IsKnown(table, key) || o.sourceKey == key
  {
    var more := WithObservation(table, o);
    if k :| 0 <= k < |table| && table[k].sourceKey == key {
      assert more[k].sourceKey == key;
    }
    if o.sourceKey == key && !IsKnown(table, key) {
      assert more[|table|].sourceKey == key;
    }
  }

  lemma {:induction false} KeysAreDistinct(run: seq<CalibrationObservation>)
    ensures forall i, j :: 0 <= i < j < |Observed(run)| ==> Observed(run)[i].sourceKey != Observed(run)[j].sourceKey
  {
    if run != [] {
      KeysAreDistinct(run[..|run| - 1]);
    }
  }

  lemma {:induction false} FirstOneMore(run: seq<CalibrationObservation>, i: int)
    requires run != []
    ensures var n := |run| - 1;
            IsFirstOfKey(run, i) <==>
            IsFirstOfKey(run[..n], i) || (i == n && !IsKnown(Observed(run[..n]), run[n].sourceKey))
  {
    var n := |run| - 1;
    KeysAreObserved(run[..n], run[n].sourceKey);
    assert forall j :: 0 <= j < n ==> run[..n][j] == run[j];
  }

  /** The table holds exactly the first observation of each key, and each once. */
  lemma {:induction false} ObservedExactly(run: seq<CalibrationObservation>, o: CalibrationObservation)
    ensures o in Observed(run) <==> exists i :: IsFirstOfKey(run, i) && run[i] == o
    ensures forall i, j :: 0 <= i < j < |Observed(run)| ==> Observed(run)[i].sourceKey != Observed(run)[j].sourceKey
  {
    KeysAreDistinct(run);
    if run != [] {
      var n := |run| - 1;
      ObservedExactly(run[..n], o);
      if i :| IsFirstOfKey(run[..n], i) && run[..n][i] == o {
        FirstOneMore(run, i);
        assert IsFirstOfKey(run, i) && run[i] == o;
      }
      if i :| IsFirstOfKey(run, i) && run[i] == o {
        FirstOneMore(run, i);
      }
      FirstOneMore(run, n);
    }
  }
}
