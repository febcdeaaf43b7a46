/**
  Two implementations of one meter: full replay and the incremental engine
  produce the same windows on weekly-only runs, as long as no old-epoch
  snapshot arrives at or after the end of the open window.
*/
module MeterAgreement {
  import opened Options
  import opened UsageModel
  import opened ResetClassifier
  import opened Milestones
  import A = Accounting
  import R = WindowReplay
  import opened ReplayInvariants

  function Observed(run: seq<Snapshot>): (r: seq<Observation>)
    ensures |r| == |run|
    ensures forall i :: 0 <= i < |run| ==> r[i] == WeeklyOnly(run[i])
  {
    seq(|run|, i requires 0 <= i < |run| => WeeklyOnly(run[i]))
  }

  /** A run as the snapshots table delivers it: strictly ordered, no id twice. */
  ghost predicate StoredRun(run: seq<Snapshot>) {
    && (forall i, j :: 0 <= i < j < |run| ==> SnapshotAtMost(run[i], run[j]))
    && (forall i, j :: 0 <= i < j < |run| ==> run[i].id != run[j].id)
  }

  /** An empty previous table and one calibration value for every observation. */
  ghost predicate FixedCalibration(env: R.Env) {
    && env.preserved == map[]
    && forall o :: env.profile(o).value == env.config.calibration
  }

  ghost predicate SameWindow(a: A.LocalWindow, r: R.ReplayWindow) {
    && a.start == r.start
    && a.end == r.end
    && a.points == r.points
    && a.latest == Snapshot(r.latestId, r.latestAt, r.latestUsed, r.latestReset)
    && a.lastMilestone == r.lastMilestone
    && a.calibration == r.calibration.value
  }

  /** Window by window, the engine's run and the replay agree. */
  ghost predicate SameWindows(t: A.Trace, st: R.ReplayState) {
    && |t.archived| == |st.windows|
    && (forall i :: 0 <= i < |st.windows| ==> SameWindow(t.archived[i].window, st.windows[i]))
    && (t.current.Some? <==> st.current.Some?)
    && (t.current.Some? ==> SameWindow(t.current.value.window, st.current.value))
  }

  /** The one situation in which the two differ: replay drops what the engine opens a window for. */
  predicate LateOldEpoch(st: R.ReplayState, item: Observation) {
    R.Judge(st, item).Drop? && st.current.Some? && item.at >= st.current.value.end
  }

  ghost predicate LateAt(env: R.Env, run: seq<Snapshot>, k: nat)
    requires k < |run|
  {
    LateOldEpoch(R.Run(env, Observed(run[..k])), WeeklyOnly(run[k]))
  }

  ghost predicate NoLateOldEpoch(env: R.Env, run: seq<Snapshot>) {
    forall k :: 0 <= k < |run| ==> !LateAt(env, run, k)
  }

  /** Folding the engine over a run and replaying it leave the same windows. */
  ghost predicate Agree(env: R.Env, run: seq<Snapshot>) {
    SameWindows(A.TraceRun(env.config, run), R.Run(env, Observed(run)))
  }

  lemma WeeklyOnlyNeverSplits(previous: Option<Observation>, s: Snapshot)
    ensures !R.Splits(previous, WeeklyOnly(s))
  {
  }

  /** Between weekly-only readings an old epoch is a reset that moved back beyond the tolerance. */
  lemma OldEpochIsBackwardShift(p: Snapshot, s: Snapshot)
    ensures R.IsOld(R.DecisionFor(Some(WeeklyOnly(p)), WeeklyOnly(s))) <==>
            p.resetsAt.Some? && s.resetsAt.Some? && s.resetsAt.value - p.resetsAt.value < -JITTER
  {
  }

  /** A new replay window equals the engine's new window. */
  lemma OpenedAlike(env: R.Env, st: R.ReplayState, s: Snapshot, how: R.Admission)
    requires FixedCalibration(env) && PositiveThresholds(env.config)
    requires how.Opening? || how.Expired?
    ensures SameWindow(A.NewWindow(s, env.config), R.Open(env, st, WeeklyOnly(s), how).current.value)
  {
    EmptyWindowMilestone(env.config);
    assert 0.0 / env.config.calibration * 100.0 == 0.0;
  }

  /** A continued replay window equals the engine's accumulated window. */
  lemma ContinuedAlike(cfg: Config, a: A.LocalWindow, r: R.ReplayWindow, s: Snapshot, delta: real)
    requires SameWindow(a, r) && PositiveThresholds(cfg)
    requires A.MilestoneAgrees(cfg, a) && 0.0 <= a.points
    requires !A.PairTransition(a.latest, s).IgnoreRegression? && delta == A.PairTransition(a.latest, s).delta
    ensures SameWindow(A.Accumulated(a, cfg, s, delta), R.Continued(cfg, r, WeeklyOnly(s), delta))
  {
    A.ClampIsIdle(a, s);
    A.AccumulateMilestone(cfg, a, s);
  }

  /** The verdicts of the two meters on the next snapshot, from the same windows. */
  lemma VerdictsCorrespond(t: A.Trace, st: R.ReplayState, s: Snapshot)
    requires SameWindows(t, st) && Tracks(st)
    requires st.accepted != [] ==> exists p :: st.accepted[|st.accepted| - 1].item == WeeklyOnly(p)
    requires s.id !in t.seen
    requires t.current.Some? ==> !SnapshotAtMost(s, t.current.value.window.latest)
    ensures var e, r := A.Judge(A.StateOf(t), s), R.Judge(st, WeeklyOnly(s));
            && (e.First? <==> r == R.Admit(R.Opening))
            && (r == R.Admit(R.Expired) ==> e.Expiry?)
            && (e.Expiry? ==> r == R.Admit(R.Expired) || LateOldEpoch(st, WeeklyOnly(s)))
            && (e.Accumulate? <==> r.Grow?)
            && (e.Accumulate? ==> e.delta == r.delta && A.PairTransition(t.current.value.window.latest, s).delta == e.delta
                                  && !A.PairTransition(t.current.value.window.latest, s).IgnoreRegression?)
            && (e.Regression? <==> r.Regress? || (r.Drop? && !LateOldEpoch(st, WeeklyOnly(s))))
            && (LateOldEpoch(st, WeeklyOnly(s)) ==> e.Expiry?)
            && !e.Duplicate? && !e.OutOfOrder?
  {
    WeeklyOnlyNeverSplits(R.Previous(st.accepted), s);
    if st.accepted != [] {
      var p :| st.accepted[|st.accepted| - 1].item == WeeklyOnly(p);
      OldEpochIsBackwardShift(p, s);
      assert t.current.value.window.latest == p;
    }
  }

  /**
    One snapshot at a time: from the same windows both meters reach the same
    windows again exactly when the snapshot is not a late old epoch.
  */
  lemma StepAgreesExactly(env: R.Env, t: A.Trace, st: R.ReplayState, s: Snapshot)
    requires FixedCalibration(env) && PositiveThresholds(env.config)
    requires SameWindows(t, st) && Tracks(st)
    requires st.accepted != [] ==> exists p :: st.accepted[|st.accepted| - 1].item == WeeklyOnly(p)
    requires s.id !in t.seen
    requires t.current.Some? ==> !SnapshotAtMost(s, t.current.value.window.latest)
    requires t.current.Some? ==> A.WellKept(env.config, t.current.value) && A.MilestoneAgrees(env.config, t.current.value.window)
    ensures SameWindows(A.TraceStep(env.config, t, s), R.Step(env, st, WeeklyOnly(s)))
            <==> !LateOldEpoch(st, WeeklyOnly(s))
  {
    VerdictsCorrespond(t, st, s);
    var item := WeeklyOnly(s);
    match A.Judge(A.StateOf(t), s) {
      case First =>
        OpenedAlike(env, st, s, R.Opening);
        assert t.archived == [];
      case Expiry =>
        if LateOldEpoch(st, item) {
          assert R.Step(env, st, item).windows == st.windows;
        } else {
          OpenedAlike(env, st, s, R.Expired);
          assert R.Open(env, st, item, R.Expired).windows == st.windows + [st.current.value];
        }
      case Accumulate(delta) =>
        ContinuedAlike(env.config, t.current.value.window, st.current.value, s, delta);
      case Regression =>
      case Duplicate =>
      case OutOfOrder =>
    }
  }

  lemma {:induction false} SeenAreIds(cfg: Config, run: seq<Snapshot>)
    ensures forall id :: id in A.TraceRun(cfg, run).seen ==> exists s :: s in run && s.id == id
  {
    if run == [] {
    } else {
      var prefix, last := run[..|run| - 1], run[|run| - 1];
      SeenAreIds(cfg, prefix);
      forall id | id in A.TraceRun(cfg, run).seen ensures exists s :: s in run && s.id == id {
        if id != last.id {
          assert id in A.TraceRun(cfg, prefix).seen;
          var s :| s in prefix && s.id == id;
          assert s in run;
        } else {
          assert last in run;
        }
      }
    }
  }

  lemma {:induction false} LatestIsFromRun(cfg: Config, run: seq<Snapshot>)
    ensures A.TraceRun(cfg, run).current.Some? ==> A.TraceRun(cfg, run).current.value.window.latest in run
  {
    if run == [] {
    } else {
      LatestIsFromRun(cfg, run[..|run| - 1]);
    }
  }

  lemma {:induction false} AcceptedAreWeeklyOnly(env: R.Env, run: seq<Snapshot>)
    ensures var acc := R.Run(env, Observed(run)).accepted;
            forall a :: a in acc ==> exists p :: a.item == WeeklyOnly(p)
  {
    AcceptedFromItems(env, Observed(run));
    forall a | a in R.Run(env, Observed(run)).accepted ensures exists p :: a.item == WeeklyOnly(p) {
      var i :| 0 <= i < |run| && Observed(run)[i] == a.item;
      assert a.item == WeeklyOnly(run[i]);
    }
  }

  /** The next stored snapshot is new to the engine and later than its latest reading. */
  lemma NextIsFresh(cfg: Config, run: seq<Snapshot>)
    requires StoredRun(run) && run != []
    ensures var t, s := A.TraceRun(cfg, run[..|run| - 1]), run[|run| - 1];
            && s.id !in t.seen
            && (t.current.Some? ==> !SnapshotAtMost(s, t.current.value.window.latest))
  {
    var n := |run| - 1;
    var prefix, s := run[..n], run[n];
    var t := A.TraceRun(cfg, prefix);
    SeenAreIds(cfg, prefix);
    LatestIsFromRun(cfg, prefix);
    assert forall p :: p in prefix ==> SnapshotAtMost(p, s) && p.id != s.id;
    if t.current.Some? {
      assert t.current.value.window.latest in prefix;
    }
  }

  lemma {:induction false} LastAcceptedIsWeekly(env: R.Env, run: seq<Snapshot>)
    ensures var acc := R.Run(env, Observed(run)).accepted;
            acc != [] ==> exists p :: acc[|acc| - 1].item == WeeklyOnly(p)
  {
    AcceptedAreWeeklyOnly(env, run);
    var acc := R.Run(env, Observed(run)).accepted;
    if acc != [] {
      assert acc[|acc| - 1] in acc;
    }
  }

  lemma LateAtPrefix(env: R.Env, run: seq<Snapshot>, n: nat, k: nat)
    requires k < n <= |run|
    ensures LateAt(env, run[..n], k) <==> LateAt(env, run, k)
  {
    assert run[..n][..k] == run[..k];
  }

  lemma NoLateOldEpochPrefix(env: R.Env, run: seq<Snapshot>, n: nat)
    requires NoLateOldEpoch(env, run) && n <= |run|
    ensures NoLateOldEpoch(env, run[..n])
  {
    forall k | 0 <= k < n ensures !LateAt(env, run[..n], k) {
      LateAtPrefix(env, run, n, k);
    }
  }

  lemma {:induction false} ReplayOneMore(env: R.Env, run: seq<Snapshot>)
    requires run != []
    ensures var prefix := run[..|run| - 1];
            R.Run(env, Observed(run)) == R.Step(env, R.Run(env, Observed(prefix)), WeeklyOnly(run[|run| - 1]))
  {
    var prefix, s := run[..|run| - 1], run[|run| - 1];
    assert Observed(prefix) + [WeeklyOnly(s)] == Observed(run);
    R.RunAppend(env, Observed(prefix), WeeklyOnly(s));
  }

  /** `StepAgreesExactly` at a point of a stored run. */
  lemma {:induction false} RunStepAgrees(env: R.Env, run: seq<Snapshot>)
    requires FixedCalibration(env) && PositiveThresholds(env.config)
    requires StoredRun(run) && run != [] && Agree(env, run[..|run| - 1])
    ensures Agree(env, run) <==> !LateAt(env, run, |run| - 1)
  {
    var prefix, s := run[..|run| - 1], run[|run| - 1];
    var t, st := A.TraceRun(env.config, prefix), R.Run(env, Observed(prefix));
    RunTracks(env, Observed(prefix));
    LastAcceptedIsWeekly(env, prefix);
    NextIsFresh(env.config, run);
    A.EveryWindowIsBalanced(env.config, prefix);
    A.EveryMilestoneAgrees(env.config, prefix);
    StepAgreesExactly(env, t, st, s);
    ReplayOneMore(env, run);
  }

  lemma {:induction false} NothingAgrees(env: R.Env)
    ensures Agree(env, [])
  {
    assert Observed([]) == [];
  }

  /**
    Replaying a stored weekly-only run yields the same windows as folding the
    engine over it: start, end, points, latest reading and last milestone.
  */
  lemma {:induction false} ReplayAgreesWithEngine(env: R.Env, run: seq<Snapshot>)
    requires FixedCalibration(env) && PositiveThresholds(env.config)
    requires StoredRun(run) && NoLateOldEpoch(env, run)
    ensures Agree(env, run)
  {
    if run == [] {
      NothingAgrees(env);
    } else {
      NoLateOldEpochPrefix(env, run, |run| - 1);
      ReplayAgreesWithEngine(env, run[..|run| - 1]);
      RunStepAgrees(env, run);
    }
  }

  lemma AgreeNextExactly(env: R.Env, run: seq<Snapshot>, k: nat)
    requires FixedCalibration(env) && PositiveThresholds(env.config) && StoredRun(run)
    requires k < |run| && Agree(env, run[..k])
    ensures Agree(env, run[..k + 1]) <==> !LateAt(env, run, k)
  {
    assert run[..k + 1][..k] == run[..k];
    RunStepAgrees(env, run[..k + 1]);
    LateAtPrefix(env, run, k + 1, k);
  }

  /** The first window is the same in both meters exactly when no threshold is zero. */
  lemma FirstWindowAgreesExactly(env: R.Env, run: seq<Snapshot>)
    requires FixedCalibration(env) && run != []
    ensures Agree(env, run[..1]) <==> PositiveThresholds(env.config)
  {
    var s := run[0];
    assert run[..1] == [s] && [s][..0] == [];
    ReplayOneMore(env, [s]);
    assert Observed([]) == [];
    EmptyWindowMilestone(env.config);
    var t, st := A.TraceRun(env.config, [s]), R.Run(env, Observed([s]));
    assert {} + {s.id} == {s.id} && A.TraceRun(env.config, []) == A.Trace([], None, {});
    assert t == A.TraceStep(env.config, A.TraceRun(env.config, []), s);
    assert t == A.Trace([], Some(A.WindowTrace(A.NewWindow(s, env.config), [s])), {s.id});
    assert st == R.Open(env, R.START, WeeklyOnly(s), R.Opening);
  }

  /**
    The two meters agree after every snapshot of a run exactly when no threshold
    is zero and no snapshot is a late old epoch.
  */
  lemma AgreeThroughoutExactly(env: R.Env, run: seq<Snapshot>)
    requires FixedCalibration(env) && StoredRun(run) && run != []
    ensures (forall k :: 0 <= k <= |run| ==> Agree(env, run[..k]))
            <==> PositiveThresholds(env.config) && NoLateOldEpoch(env, run)
  {
    FirstWindowAgreesExactly(env, run);
    if PositiveThresholds(env.config) && NoLateOldEpoch(env, run) {
      forall k | 0 <= k <= |run| ensures Agree(env, run[..k]) {
        NoLateOldEpochPrefix(env, run, k);
        ReplayAgreesWithEngine(env, run[..k]);
      }
    }
    if forall k :: 0 <= k <= |run| ==> Agree(env, run[..k]) {
      assert Agree(env, run[..1]);
      forall k | 0 <= k < |run| ensures !LateAt(env, run, k) {
        AgreeNextExactly(env, run, k);
      }
    }
  }
}
