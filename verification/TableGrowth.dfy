/**
  How the table grows while a run goes on, and what a finished table hands to
  the next run.
*/
module TableGrowth {
  import opened Options
  import opened UsageModel
  import opened ResetClassifier
  import opened WindowReplay
  import opened ReplayInvariants
  import opened StateStore

  // ----- What later items can still change about a window -----

  ghost predicate SameIdentity(a: ReplayWindow, b: ReplayWindow) {
    a.start == b.start && a.kind == b.kind && a.calibration == b.calibration
  }

  /** The last window of an earlier point may grow, and may be clipped by the split that follows it. */
  ghost predicate Grown(a: seq<ReplayWindow>, b: seq<ReplayWindow>) {
    && |a| <= |b|
    && (forall i :: 0 <= i < |a| ==> SameIdentity(a[i], b[i]))
    && (forall i :: 0 <= i < |a| - 1 ==> a[i] == b[i])
    && (a != [] ==>
          var i := |a| - 1;
          b[i].end != a[i].end ==> i + 1 < |b| && b[i + 1].kind.ServerBoundary?)
  }

  lemma GrownTransitive(a: seq<ReplayWindow>, b: seq<ReplayWindow>, c: seq<ReplayWindow>)
    requires Grown(a, b) && Grown(b, c)
    ensures Grown(a, c)
  {
    forall i | 0 <= i < |a| - 1 ensures a[i] == c[i] {
      assert b[i] == c[i];
    }
    if a != [] {
      var i := |a| - 1;
      assert SameIdentity(a[i], b[i]) && SameIdentity(b[i], c[i]);
      if i + 1 < |b| {
        assert b[i] == c[i] && SameIdentity(b[i + 1], c[i + 1]);
      }
    }
  }

  lemma StepGrows(env: Env, st: ReplayState, item: Observation)
    requires st.current.None? ==> st.windows == []
    ensures Grown(WindowsOf(st), WindowsOf(Step(env, st, item)))
  {
    var verdict := Judge(st, item);
    if verdict.Admit? && st.current.Some? {
      var after := Open(env, st, item, verdict.how);
      assert WindowsOf(after)[|st.windows| + 1] == after.current.value;
    }
  }

  lemma {:induction false} NoCurrentNoWindows(env: Env, items: seq<Observation>)
    ensures Run(env, items).current.None? ==> Run(env, items).windows == []
  {
    if items == [] {
    } else {
      NoCurrentNoWindows(env, items[..|items| - 1]);
    }
  }

  lemma {:induction false} RunGrows(env: Env, items: seq<Observation>, k: nat)
    requires k <= |items|
    ensures Grown(WindowsOf(Run(env, items[..k])), WindowsOf(Run(env, items)))
    decreases |items|
  {
    if k == |items| {
      assert items[..k] == items;
    } else {
      var prefix := items[..|items| - 1];
      RunGrows(env, prefix, k);
      assert prefix[..k] == items[..k];
      NoCurrentNoWindows(env, prefix);
      StepGrows(env, Run(env, prefix), items[|items| - 1]);
      GrownTransitive(WindowsOf(Run(env, items[..k])), WindowsOf(Run(env, prefix)), WindowsOf(Run(env, items)));
    }
  }

  lemma {:induction false} RunUpTo(env: Env, items: seq<Observation>, k: nat)
    requires k < |items|
    ensures Run(env, items[..k + 1]) == Step(env, Run(env, items[..k]), items[k])
  {
    assert items[..k] + [items[k]] == items[..k + 1];
    RunAppend(env, items[..k], items[k]);
  }

  // ----- Pins -----

  /** Each pin is the end and calibration of a row with that start. */
  lemma {:induction false} PinsComeFromRows(rows: seq<WindowRow>)
    ensures forall t :: t in PreservedOf(rows) ==>
              exists row :: row in rows && row.window.start == t && PreservedOf(rows)[t] == PinnedBy(row)
  {
    if rows == [] {
    } else {
      var prefix, last := rows[..|rows| - 1], rows[|rows| - 1];
      PinsComeFromRows(prefix);
      forall t | t in PreservedOf(rows)
        ensures exists row :: row in rows && row.window.start == t && PreservedOf(rows)[t] == PinnedBy(row)
      {
        if t == last.window.start {
          assert last in rows;
        } else {
          assert PreservedOf(rows) == PreservedOf(prefix)[last.window.start := PinnedBy(last)];
          assert t in PreservedOf(prefix);
          var row :| row in prefix && row.window.start == t && PreservedOf(prefix)[t] == PinnedBy(row);
          assert row in rows;
        }
      }
    }
  }

  /** A window whose start is pinned has the pinned calibration. */
  lemma {:induction false} PinnedCalibration(env: Env, items: seq<Observation>)
    ensures forall w :: w in WindowsOf(Run(env, items)) && w.start in env.preserved ==>
              w.calibration == env.preserved[w.start].calibration
  {
    if items == [] {
    } else {
      PinnedCalibration(env, items[..|items| - 1]);
      PinnedCalibrationStep(env, Run(env, items[..|items| - 1]), items[|items| - 1]);
    }
  }

  lemma PinnedCalibrationStep(env: Env, st: ReplayState, item: Observation)
    requires forall w :: w in WindowsOf(st) && w.start in env.preserved ==>
               w.calibration == env.preserved[w.start].calibration
    ensures forall w :: w in WindowsOf(Step(env, st, item)) && w.start in env.preserved ==>
              w.calibration == env.preserved[w.start].calibration
  {
    assert st.current.Some? ==> st.current.value in WindowsOf(st);
    assert forall w :: w in st.windows ==> w in WindowsOf(st);
  }
}
