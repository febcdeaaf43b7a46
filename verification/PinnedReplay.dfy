/**
  Replaying over any previous table, of paired or weekly-only data: exactly when
  the ends and calibrations it hands over leave the result as if there had been
  none.  This is the condition under which batching does not show.
*/
module PinnedReplay {
  import opened Options
  import opened UsageModel
  import opened ResetClassifier
  import opened Sorting
  import opened WindowReplay
  import opened ReplayInvariants
  import opened StateStore
  import opened TableGrowth

  /** The end an open window has when its start is pinned. */
  function PinnedEnd(preserved: map<Time, Pinned>, w: ReplayWindow): Time {
    if w.start in preserved then preserved[w.start].end else w.end
  }

  function BoundaryFor(st: ReplayState, item: Observation, how: Admission): Option<Time> {
    var decision := DecisionFor(Previous(st.accepted), item);
    if how.Split? && decision.Some? then decision.value.boundaryAt else None
  }

  /** The window the item opens in a replay without pins. */
  function Opened(env: Env, st: ReplayState, item: Observation, how: Admission): ReplayWindow {
    Open(env, st, item, how).current.value
  }

  /** With its pinned end the open window expires, or not, at the same item. */
  predicate ExpiresAlike(preserved: map<Time, Pinned>, st: ReplayState, item: Observation) {
    var verdict := Judge(st, item);
    st.current.Some? && !verdict.Drop? && verdict != Admit(Split) ==>
      (item.at >= st.current.value.end <==> item.at >= PinnedEnd(preserved, st.current.value))
  }

  /** With its pinned end the closing window ends at the same time. */
  predicate ClosesAlike(preserved: map<Time, Pinned>, st: ReplayState, item: Observation) {
    var verdict := Judge(st, item);
    verdict.Admit? && st.current.Some? ==>
      var w, boundary := st.current.value, BoundaryFor(st, item, verdict.how);
      Closed(w.(end := PinnedEnd(preserved, w)), boundary).end == Closed(w, boundary).end
  }

  /** The calibration pinned at the start of the new window is the one its first item selects. */
  predicate OpensAlike(env: Env, preserved: map<Time, Pinned>, st: ReplayState, item: Observation) {
    var verdict := Judge(st, item);
    verdict.Admit? ==>
      var start := Opened(env, st, item, verdict.how).start;
      start in preserved ==> preserved[start].calibration == env.profile(item)
  }

  predicate StepFitsPins(env: Env, preserved: map<Time, Pinned>, st: ReplayState, item: Observation) {
    && ExpiresAlike(preserved, st, item)
    && ClosesAlike(preserved, st, item)
    && OpensAlike(env, preserved, st, item)
  }

  ghost predicate FitsAt(env: Env, preserved: map<Time, Pinned>, items: seq<Observation>, k: nat)
    requires k < |items|
  {
    StepFitsPins(env, preserved, Run(env, items[..k]), items[k])
  }

  /** What can be read off the replay without pins: they fit at each item, and the last window keeps its end. */
  ghost predicate PinsFit(env: Env, preserved: map<Time, Pinned>, items: seq<Observation>) {
    && (forall k :: 0 <= k < |items| ==> FitsAt(env, preserved, items, k))
    && var last := Run(env, items).current;
       last.Some? ==> PinnedEnd(preserved, last.value) == last.value.end
  }

  function Over(env: Env, preserved: map<Time, Pinned>): Env {
    env.(preserved := preserved)
  }

  /** The two replays agree but for the end of the open window. */
  ghost predicate Coupled(preserved: map<Time, Pinned>, first: ReplayState, second: ReplayState) {
    && second.windows == first.windows
    && second.accepted == first.accepted
    && second.events == first.events
    && (first.current.None? <==> second.current.None?)
    && (first.current.Some? ==>
          second.current.value == first.current.value.(end := PinnedEnd(preserved, first.current.value)))
  }

  lemma SameVerdictExactly(preserved: map<Time, Pinned>, first: ReplayState, second: ReplayState, item: Observation)
    requires Coupled(preserved, first, second)
    ensures ExpiresAlike(preserved, first, item) <==>
              (Judge(first, item) == Judge(second, item)
               || (!Judge(first, item).Admit? && !Judge(second, item).Admit?))
    ensures ExpiresAlike(preserved, first, item) ==> Judge(first, item) == Judge(second, item)
  {
  }

  lemma OpenCoupled(env: Env, preserved: map<Time, Pinned>, first: ReplayState, second: ReplayState, item: Observation,
                    how: Admission)
    requires env.preserved == map[] && Coupled(preserved, first, second) && Judge(first, item) == Admit(how)
    requires ClosesAlike(preserved, first, item) && OpensAlike(env, preserved, first, item)
    ensures Coupled(preserved, Open(env, first, item, how), Open(Over(env, preserved), second, item, how))
  {
  }

  lemma CoupledStep(env: Env, preserved: map<Time, Pinned>, first: ReplayState, second: ReplayState, item: Observation)
    requires env.preserved == map[] && Coupled(preserved, first, second)
    requires StepFitsPins(env, preserved, first, item)
    ensures Coupled(preserved, Step(env, first, item), Step(Over(env, preserved), second, item))
  {
    SameVerdictExactly(preserved, first, second, item);
    var verdict := Judge(first, item);
    if verdict.Admit? {
      OpenCoupled(env, preserved, first, second, item, verdict.how);
    }
  }

  // ----- Where the pins show -----

  /** From a point on, either the open window is still the same one, or an expiry that closed it came at or after its end. */
  ghost predicate ClosedInTime(st: ReplayState, index: nat, end: Time) {
    var ws := WindowsOf(st);
    if |ws| == index + 1 then st.current.Some? && st.current.value.end == end
    else |ws| > index + 1 && (ws[index + 1].kind.LocalExpiry? ==> ws[index + 1].start >= end)
  }

  lemma ClosedInTimeStep(env: Env, st: ReplayState, item: Observation, index: nat, end: Time)
    requires ClosedInTime(st, index, end) && (st.current.None? ==> st.windows == [])
    ensures ClosedInTime(Step(env, st, item), index, end)
  {
    StepGrows(env, st, item);
    var before, after := WindowsOf(st), WindowsOf(Step(env, st, item));
    if |before| > index + 1 {
      assert SameIdentity(before[index + 1], after[index + 1]);
    } else if Judge(st, item).Admit? {
      assert after[index + 1] == Step(env, st, item).current.value;
    }
  }

  lemma {:induction false} StaysClosedInTime(env: Env, items: seq<Observation>, k: nat, m: nat, index: nat, end: Time)
    requires k <= m <= |items| && ClosedInTime(Run(env, items[..k]), index, end)
    ensures ClosedInTime(Run(env, items[..m]), index, end)
    decreases m
  {
    if k < m {
      StaysClosedInTime(env, items, k, m - 1, index, end);
      ClosedInTimeNext(env, items, m - 1, index, end);
    }
  }

  lemma {:induction false} ClosedInTimeNext(env: Env, items: seq<Observation>, m: nat, index: nat, end: Time)
    requires m < |items| && ClosedInTime(Run(env, items[..m]), index, end)
    ensures ClosedInTime(Run(env, items[..m + 1]), index, end)
  {
    RunUpTo(env, items, m);
    NoCurrentNoWindows(env, items[..m]);
    ClosedInTimeStep(env, Run(env, items[..m]), items[m], index, end);
  }

  /** The window after the given one was opened by an expiry at this instant. */
  ghost predicate ExpiredAt(ws: seq<ReplayWindow>, index: nat, at: Time) {
    |ws| > index + 1 && ws[index + 1].kind.LocalExpiry? && ws[index + 1].start == at
  }

  /** An item that continues a window comes before any expiry that closes it. */
  lemma {:induction false} ContinuedIsNotExpired(env: Env, items: seq<Observation>, k: nat)
    requires k < |items|
    requires var st := Run(env, items[..k]);
             st.current.Some? && !Judge(st, items[k]).Drop? && !Judge(st, items[k]).Admit?
    ensures !ExpiredAt(WindowsOf(Run(env, items)), |Run(env, items[..k]).windows|, items[k].at)
  {
    var st := Run(env, items[..k]);
    assert ClosedInTime(st, |st.windows|, st.current.value.end);
    StaysClosedInTime(env, items, k, |items|, |st.windows|, st.current.value.end);
    assert items[..|items|] == items;
  }

  lemma ExpiryOpensNext(env: Env, st: ReplayState, item: Observation)
    requires st.current.Some? && Judge(st, item) == Admit(Expired)
    ensures ExpiredAt(WindowsOf(Step(env, st, item)), |st.windows|, item.at)
  {
    var after := Open(env, st, item, Expired);
    OpenStart(env, st, item, Expired);
    assert WindowsOf(after)[|st.windows| + 1] == after.current.value;
  }

  lemma ExpiredStays(a: seq<ReplayWindow>, b: seq<ReplayWindow>, index: nat, at: Time)
    requires Grown(a, b) && ExpiredAt(a, index, at)
    ensures ExpiredAt(b, index, at)
  {
    assert SameIdentity(a[index + 1], b[index + 1]);
  }

  /** An item that expires a window is the start of the next one, for good. */
  lemma {:induction false} ExpiredForGood(env: Env, items: seq<Observation>, k: nat)
    requires k < |items|
    requires var st := Run(env, items[..k]); st.current.Some? && Judge(st, items[k]) == Admit(Expired)
    ensures ExpiredAt(WindowsOf(Run(env, items)), |Run(env, items[..k]).windows|, items[k].at)
  {
    var st := Run(env, items[..k]);
    RunUpTo(env, items, k);
    ExpiryOpensNext(env, st, items[k]);
    RunGrows(env, items, k + 1);
    ExpiredStays(WindowsOf(Run(env, items[..k + 1])), WindowsOf(Run(env, items)), |st.windows|, items[k].at);
  }

  /** Where the two disagree on expiry, one expires the window and the other continues it. */
  lemma OneExpires(preserved: map<Time, Pinned>, first: ReplayState, second: ReplayState, item: Observation)
    requires Coupled(preserved, first, second) && !ExpiresAlike(preserved, first, item)
    ensures first.current.Some? && second.current.Some?
    ensures !Judge(first, item).Drop? && !Judge(second, item).Drop?
    ensures (Judge(first, item) == Admit(Expired) && !Judge(second, item).Admit?)
            || (Judge(second, item) == Admit(Expired) && !Judge(first, item).Admit?)
  {
  }

  lemma {:induction false} ExpiryShows(env: Env, preserved: map<Time, Pinned>, items: seq<Observation>, k: nat)
    requires k < |items|
    requires Coupled(preserved, Run(env, items[..k]), Run(Over(env, preserved), items[..k]))
    requires !ExpiresAlike(preserved, Run(env, items[..k]), items[k])
    ensures WindowsOf(Run(env, items)) != WindowsOf(Run(Over(env, preserved), items))
  {
    OneExpires(preserved, Run(env, items[..k]), Run(Over(env, preserved), items[..k]), items[k]);
    if Judge(Run(env, items[..k]), items[k]).Admit? {
      ExpiredForGood(env, items, k);
      ContinuedIsNotExpired(Over(env, preserved), items, k);
    } else {
      ContinuedIsNotExpired(env, items, k);
      ExpiredForGood(Over(env, preserved), items, k);
    }
  }

  /** A window closed at another end, or opened with another calibration, stays so. */
  lemma {:induction false} OpeningShows(env: Env, preserved: map<Time, Pinned>, items: seq<Observation>, k: nat)
    requires k < |items| && env.preserved == map[]
    requires Coupled(preserved, Run(env, items[..k]), Run(Over(env, preserved), items[..k]))
    requires ExpiresAlike(preserved, Run(env, items[..k]), items[k])
    requires !ClosesAlike(preserved, Run(env, items[..k]), items[k])
             || !OpensAlike(env, preserved, Run(env, items[..k]), items[k])
    ensures WindowsOf(Run(env, items)) != WindowsOf(Run(Over(env, preserved), items))
  {
    var over, item := Over(env, preserved), items[k];
    var first, second := Run(env, items[..k]), Run(over, items[..k]);
    SameVerdictExactly(preserved, first, second, item);
    RunUpTo(env, items, k);
    RunUpTo(over, items, k);
    RunGrows(env, items, k + 1);
    RunGrows(over, items, k + 1);
    OpeningDiffers(env, preserved, first, second, item);
    var a, b := WindowsOf(Step(env, first, item)), WindowsOf(Step(over, second, item));
    var last := |a| - 1;
    assert SameIdentity(a[last], WindowsOf(Run(env, items))[last]);
    assert SameIdentity(b[last], WindowsOf(Run(over, items))[last]);
    if last > 0 {
      assert a[last - 1] == WindowsOf(Run(env, items))[last - 1];
      assert b[last - 1] == WindowsOf(Run(over, items))[last - 1];
    }
  }

  lemma OpeningDiffers(env: Env, preserved: map<Time, Pinned>, first: ReplayState, second: ReplayState, item: Observation)
    requires env.preserved == map[] && Coupled(preserved, first, second)
    requires Judge(first, item) == Judge(second, item)
    requires !ClosesAlike(preserved, first, item) || !OpensAlike(env, preserved, first, item)
    ensures var a, b := WindowsOf(Step(env, first, item)), WindowsOf(Step(Over(env, preserved), second, item));
            && |a| == |b| > 0
            && (a[|a| - 1].calibration != b[|a| - 1].calibration || (|a| > 1 && a[|a| - 2] != b[|a| - 2]))
  {
    var how := Judge(first, item).how;
    var one, two := Open(env, first, item, how), Open(Over(env, preserved), second, item, how);
    assert one.current.value.start == two.current.value.start;
    if first.current.Some? {
      assert WindowsOf(one)[|first.windows|] == one.windows[|first.windows|];
      assert WindowsOf(two)[|first.windows|] == two.windows[|first.windows|];
    }
  }

  // ----- The exact condition -----

  lemma {:induction false} CoupledOrShows(env: Env, preserved: map<Time, Pinned>, items: seq<Observation>, k: nat)
    requires env.preserved == map[] && k <= |items|
    ensures if forall m :: 0 <= m < k ==> FitsAt(env, preserved, items, m)
            then Coupled(preserved, Run(env, items[..k]), Run(Over(env, preserved), items[..k]))
            else WindowsOf(Run(env, items)) != WindowsOf(Run(Over(env, preserved), items))
  {
    if k > 0 {
      CoupledOrShows(env, preserved, items, k - 1);
      if forall m :: 0 <= m < k - 1 ==> FitsAt(env, preserved, items, m) {
        CoupledOrShowsNext(env, preserved, items, k - 1);
      }
    }
  }

  lemma {:induction false} CoupledOrShowsNext(env: Env, preserved: map<Time, Pinned>, items: seq<Observation>, k: nat)
    requires env.preserved == map[] && k < |items|
    requires Coupled(preserved, Run(env, items[..k]), Run(Over(env, preserved), items[..k]))
    ensures FitsAt(env, preserved, items, k) ==>
              Coupled(preserved, Run(env, items[..k + 1]), Run(Over(env, preserved), items[..k + 1]))
    ensures !FitsAt(env, preserved, items, k) ==>
              WindowsOf(Run(env, items)) != WindowsOf(Run(Over(env, preserved), items))
  {
    if FitsAt(env, preserved, items, k) {
      RunUpTo(env, items, k);
      RunUpTo(Over(env, preserved), items, k);
      CoupledStep(env, preserved, Run(env, items[..k]), Run(Over(env, preserved), items[..k]), items[k]);
    } else if !ExpiresAlike(preserved, Run(env, items[..k]), items[k]) {
      ExpiryShows(env, preserved, items, k);
    } else {
      OpeningShows(env, preserved, items, k);
    }
  }

  lemma CoupledTables(preserved: map<Time, Pinned>, first: ReplayState, second: ReplayState)
    requires Coupled(preserved, first, second)
    ensures WindowsOf(first) == WindowsOf(second) <==>
              (first.current.Some? ==> PinnedEnd(preserved, first.current.value) == first.current.value.end)
  {
    if first.current.Some? {
      assert WindowsOf(first)[|first.windows|] == first.current.value;
      assert WindowsOf(second)[|first.windows|] == second.current.value;
    }
  }

  /** A replay over any previous table gives the windows of one without it exactly when the pins fit. */
  lemma {:induction false} PinnedReplayExactly(env: Env, preserved: map<Time, Pinned>, items: seq<Observation>)
    requires env.preserved == map[]
    ensures WindowsOf(Run(Over(env, preserved), items)) == WindowsOf(Run(env, items)) <==> PinsFit(env, preserved, items)
  {
    CoupledOrShows(env, preserved, items, |items|);
    assert items[..|items|] == items;
    if forall m :: 0 <= m < |items| ==> FitsAt(env, preserved, items, m) {
      CoupledTables(preserved, Run(env, items), Run(Over(env, preserved), items));
    }
  }

  /**
    Batches of any data: the next ingest ends as one replay of everything would
    exactly when what the earlier batches pinned fits that replay.
  */
  lemma {:induction false} IngestAsOneReplayExactly(cfg: Config, profile: Profile, db: Db, batch: seq<Observation>)
    ensures var rows := InsertAll(db.snapshots, Sort(batch, AtMost));
            RebuiltWindows(cfg, profile, rows, db.windows) == RebuiltWindows(cfg, profile, rows, [])
            <==> PinsFit(Env(cfg, profile, map[]), PreservedOf(db.windows), Backfilled(ReplayItems(rows)))
  {
    var rows := InsertAll(db.snapshots, Sort(batch, AtMost));
    PinnedReplayExactly(Env(cfg, profile, map[]), PreservedOf(db.windows), Backfilled(ReplayItems(rows)));
  }

  /**
    Two stores whose next ingests replay the same items, however they were
    batched before: where the pins of one fit, the other ends with the same
    windows exactly when its pins fit too.
  */
  lemma {:induction false} PairedBatchingAgreesExactly(cfg: Config, profile: Profile, a: Db, b: Db,
                                                       x: seq<Observation>, y: seq<Observation>)
    requires ReplayItems(InsertAll(a.snapshots, Sort(x, AtMost))) == ReplayItems(InsertAll(b.snapshots, Sort(y, AtMost)))
    requires PinsFit(Env(cfg, profile, map[]), PreservedOf(a.windows),
                     Backfilled(ReplayItems(InsertAll(a.snapshots, Sort(x, AtMost)))))
    ensures RebuiltWindows(cfg, profile, InsertAll(a.snapshots, Sort(x, AtMost)), a.windows)
            == RebuiltWindows(cfg, profile, InsertAll(b.snapshots, Sort(y, AtMost)), b.windows)
            <==> PinsFit(Env(cfg, profile, map[]), PreservedOf(b.windows),
                         Backfilled(ReplayItems(InsertAll(b.snapshots, Sort(y, AtMost)))))
  {
    IngestAsOneReplayExactly(cfg, profile, a, x);
    IngestAsOneReplayExactly(cfg, profile, b, y);
  }
}
