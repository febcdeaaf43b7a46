/**
  Replaying unchanged data.  The windows table hands its ends, possibly clipped by
  a split or shortened by a manual reset, to the next replay; this module proves
  exactly when that replay reproduces the table, for data of any kind.
*/
module ReplayFixpoint {
  import opened Options
  import opened UsageModel
  import opened ResetClassifier
  import opened WindowReplay
  import opened ReplayInvariants
  import opened StateStore
  import opened SnapshotTable
  import opened TableGrowth
  import opened TableInvariants
  import opened Sorting

  // ----- The second replay follows the first -----

  /** The pins a table leaves behind. */
  ghost predicate Pins(preserved: map<Time, Pinned>, table: seq<ReplayWindow>) {
    && DistinctStarts(table)
    && (forall t :: t in preserved <==> exists i :: 0 <= i < |table| && table[i].start == t)
    && (forall i :: 0 <= i < |table| ==>
          table[i].start in preserved && preserved[table[i].start] == Pinned(table[i].end, table[i].calibration))
  }

  /** The same windows, but for the end of the last one, which a manual reset may have set. */
  ghost predicate SameButLastEnd(windows: seq<ReplayWindow>, table: seq<ReplayWindow>) {
    && |table| == |windows|
    && (forall i :: 0 <= i < |table| - 1 ==> table[i] == windows[i])
    && (table != [] ==> var n := |table| - 1; table[n] == windows[n].(end := table[n].end))
  }

  /** The replay with pins has the same closed windows; its open window already has its final end. */
  ghost predicate Follows(first: ReplayState, second: ReplayState, table: seq<ReplayWindow>) {
    && second.windows == first.windows
    && second.accepted == first.accepted
    && second.events == first.events
    && (first.current.None? <==> second.current.None?)
    && (first.current.Some? ==>
          && |first.windows| < |table|
          && second.current.value == first.current.value.(end := table[|first.windows|].end))
  }

  /** An observation that reaches the expiry test and does not expire the window precedes the end the table gives it. */
  ghost predicate StepBeforeEnd(st: ReplayState, item: Observation, table: seq<ReplayWindow>) {
    var verdict := Judge(st, item);
    (verdict.Grow? || verdict.Regress?) && st.current.Some? && |st.windows| < |table| ==>
      item.at < table[|st.windows|].end
  }

  /** `StepBeforeEnd` for the first `k` items of a run. */
  ghost predicate BeforeEndUpTo(env: Env, items: seq<Observation>, table: seq<ReplayWindow>, k: nat)
    requires k <= |items|
  {
    k > 0 ==>
      && BeforeEndUpTo(env, items, table, k - 1)
      && StepBeforeEnd(Run(env, items[..k - 1]), items[k - 1], table)
  }

  ghost predicate AllBeforeEnd(env: Env, items: seq<Observation>, table: seq<ReplayWindow>) {
    BeforeEndUpTo(env, items, table, |items|)
  }

  /** Reopening with a pin gives the same window with the pinned end. */
  lemma PinnedOpening(env: Env, pinned: Env, table: seq<ReplayWindow>, item: Observation,
                      kind: BoundaryKind, boundaryAt: Time, seed: real, i: nat)
    requires pinned.config == env.config
    requires Pins(pinned.preserved, table) && i < |table|
    requires SameIdentity(NewReplayWindow(env, item, kind, boundaryAt, seed), table[i])
    ensures NewReplayWindow(pinned, item, kind, boundaryAt, seed)
            == NewReplayWindow(env, item, kind, boundaryAt, seed).(end := table[i].end)
  {
  }

  /** A point of the first run, as its final windows and the pinned table see it. */
  ghost predicate OnTheWay(windows: seq<ReplayWindow>, table: seq<ReplayWindow>, ws: seq<ReplayWindow>) {
    SameButLastEnd(windows, table) && Grown(ws, windows)
  }

  lemma OpenFollows(env: Env, pinned: Env, windows: seq<ReplayWindow>, table: seq<ReplayWindow>, st: ReplayState,
                    st2: ReplayState, item: Observation, how: Admission)
    requires pinned.config == env.config && Pins(pinned.preserved, table)
    requires Follows(st, st2, table)
    requires st.current.None? ==> st.windows == []
    requires !how.Split? ==> st.current.None? || table[|st.windows|].end == st.current.value.end
    requires OnTheWay(windows, table, WindowsOf(Open(env, st, item, how)))
    ensures Follows(Open(env, st, item, how), Open(pinned, st2, item, how), table)
  {
    var after := Open(env, st, item, how);
    var n := |after.windows|;
    assert WindowsOf(after)[n] == after.current.value;
    assert SameIdentity(after.current.value, windows[n]) && SameIdentity(windows[n], table[n]);
    var previous := Previous(st.accepted);
    var decision := DecisionFor(previous, item);
    var kind := KindOf(decision, how.Split?, how.Expired?, item);
    var seed := if how.Split? then SeedAfterBoundary(previous, item) else 0.0;
    PinnedOpening(env, pinned, table, item, kind, BoundaryOf(decision, how.Split?, item), seed, n);
    if st.current.Some? {
      assert WindowsOf(after)[n - 1] == after.windows[n - 1] == windows[n - 1] == table[n - 1];
    }
  }

  /** The final end of the open window: untouched if the item expires it. */
  lemma EndOnlyMovesAtSplits(env: Env, windows: seq<ReplayWindow>, table: seq<ReplayWindow>, st: ReplayState,
                             item: Observation)
    requires st.current.Some? && Judge(st, item) == Admit(Expired)
    requires OnTheWay(windows, table, WindowsOf(Step(env, st, item)))
    ensures |st.windows| < |table| && table[|st.windows|].end == st.current.value.end
  {
    var after := Open(env, st, item, Expired);
    assert WindowsOf(after)[|st.windows|] == after.windows[|st.windows|] == st.current.value;
  }

  lemma SameVerdict(table: seq<ReplayWindow>, st: ReplayState, st2: ReplayState, item: Observation)
    requires Follows(st, st2, table) && StepBeforeEnd(st, item, table)
    requires Judge(st, item) == Admit(Expired) ==> st.current.Some? && table[|st.windows|].end == st.current.value.end
    ensures Judge(st2, item) == Judge(st, item)
  {
  }

  lemma GrowFollows(env: Env, pinned: Env, table: seq<ReplayWindow>, st: ReplayState, st2: ReplayState, item: Observation)
    requires pinned.config == env.config
    requires Follows(st, st2, table) && Judge(st2, item) == Judge(st, item) && !Judge(st, item).Admit?
    ensures Follows(Step(env, st, item), Step(pinned, st2, item), table)
  {
  }

  /** As long as continuing observations precede the final end, the second replay follows the first. */
  lemma StepFollows(env: Env, pinned: Env, windows: seq<ReplayWindow>, table: seq<ReplayWindow>, st: ReplayState,
                    st2: ReplayState, item: Observation)
    requires pinned.config == env.config && Pins(pinned.preserved, table)
    requires Follows(st, st2, table)
    requires st.current.None? ==> st.windows == []
    requires OnTheWay(windows, table, WindowsOf(Step(env, st, item)))
    requires StepBeforeEnd(st, item, table)
    ensures Follows(Step(env, st, item), Step(pinned, st2, item), table)
  {
    var verdict := Judge(st, item);
    if verdict == Admit(Expired) {
      EndOnlyMovesAtSplits(env, windows, table, st, item);
    }
    SameVerdict(table, st, st2, item);
    if verdict.Admit? {
      OpenFollows(env, pinned, windows, table, st, st2, item, verdict.how);
    } else {
      GrowFollows(env, pinned, table, st, st2, item);
    }
  }

  // ----- Where it leaves the first -----

  /** A window that ends earlier than it did while open was clipped by a server boundary. */
  lemma {:induction false} ClippedBySplit(env: Env, items: seq<Observation>, k: nat)
    requires k <= |items| && Run(env, items[..k]).current.Some?
    ensures var st, windows := Run(env, items[..k]), WindowsOf(Run(env, items));
            && |st.windows| < |windows|
            && (windows[|st.windows|].end != st.current.value.end ==>
                  |st.windows| + 1 < |windows| && windows[|st.windows| + 1].kind.ServerBoundary?)
  {
    var st := Run(env, items[..k]);
    RunGrows(env, items, k);
    assert WindowsOf(st)[|st.windows|] == st.current.value;
  }

  lemma ExpiryOpensLocally(env: Env, st: ReplayState, item: Observation)
    requires st.current.Some? && Judge(st, item) == Admit(Expired)
    ensures var ws := WindowsOf(Step(env, st, item));
            |ws| == |st.windows| + 2 && ws[|st.windows| + 1].kind == LocalExpiry
  {
  }

  /** The window after the given one was opened by local expiry. */
  ghost predicate ExpiresNext(ws: seq<ReplayWindow>, n: nat) {
    n + 1 < |ws| && ws[n + 1].kind == LocalExpiry
  }

  /** The table gives the open window another end than it has. */
  ghost predicate EndsElsewhere(st: ReplayState, table: seq<ReplayWindow>) {
    st.current.Some? && |st.windows| < |table| && table[|st.windows|].end != st.current.value.end
  }

  /** A window opened by local expiry keeps that kind to the end of the run. */
  lemma {:induction false} ExpiryStays(env: Env, items: seq<Observation>, k: nat)
    requires k < |items|
    requires var st := Run(env, items[..k]); st.current.Some? && Judge(st, items[k]) == Admit(Expired)
    ensures ExpiresNext(WindowsOf(Run(env, items)), |Run(env, items[..k]).windows|)
  {
    var st := Run(env, items[..k]);
    RunUpTo(env, items, k);
    ExpiryOpensLocally(env, st, items[k]);
    RunGrows(env, items, k + 1);
    assert SameIdentity(WindowsOf(Step(env, st, items[k]))[|st.windows| + 1], WindowsOf(Run(env, items))[|st.windows| + 1]);
  }

  /** A continuing observation past the final end expires the window on the second replay. */
  lemma LateContinuationExpires(st: ReplayState, st2: ReplayState, item: Observation, table: seq<ReplayWindow>)
    requires Follows(st, st2, table) && !StepBeforeEnd(st, item, table)
    ensures EndsElsewhere(st, table) && |st2.windows| == |st.windows|
    ensures st2.current.Some? && Judge(st2, item) == Admit(Expired)
  {
  }

  lemma {:induction false} LateExpiryStays(pinned: Env, items: seq<Observation>, table: seq<ReplayWindow>, k: nat, st: ReplayState)
    requires k < |items| && Follows(st, Run(pinned, items[..k]), table) && !StepBeforeEnd(st, items[k], table)
    ensures EndsElsewhere(st, table) && ExpiresNext(WindowsOf(Run(pinned, items)), |st.windows|)
  {
    LateContinuationExpires(st, Run(pinned, items[..k]), items[k], table);
    ExpiryStays(pinned, items, k);
  }

  /** A table in which a window ends early but no expiry follows it differs from one in which an expiry does. */
  lemma ExpiryIsNotInTable(windows: seq<ReplayWindow>, table: seq<ReplayWindow>, other: seq<ReplayWindow>, n: nat, end: Time)
    requires SameButLastEnd(windows, table) && n < |windows|
    requires windows[n].end != end ==> n + 1 < |windows| && windows[n + 1].kind.ServerBoundary?
    requires table[n].end != end && ExpiresNext(other, n)
    ensures other != table
  {
    if n + 1 < |table| {
      assert table[n] == windows[n] && table[n + 1].kind == windows[n + 1].kind;
    }
  }

  /** Such an expiry splits the window in two, so the other replay ends in another table. */
  lemma {:induction false} LeavesAt(env: Env, items: seq<Observation>, table: seq<ReplayWindow>, other: seq<ReplayWindow>, k: nat)
    requires k < |items| && SameButLastEnd(WindowsOf(Run(env, items)), table)
    requires EndsElsewhere(Run(env, items[..k]), table) && ExpiresNext(other, |Run(env, items[..k]).windows|)
    ensures other != table
  {
    ClippedBySplit(env, items, k);
    var st := Run(env, items[..k]);
    ExpiryIsNotInTable(WindowsOf(Run(env, items)), table, other, |st.windows|, st.current.value.end);
  }

  lemma {:induction false} FollowsOneMore(env: Env, pinned: Env, items: seq<Observation>, table: seq<ReplayWindow>, j: nat)
    requires j < |items|
    requires pinned.config == env.config && Pins(pinned.preserved, table)
    requires SameButLastEnd(WindowsOf(Run(env, items)), table)
    requires Follows(Run(env, items[..j]), Run(pinned, items[..j]), table)
    requires StepBeforeEnd(Run(env, items[..j]), items[j], table)
    ensures Follows(Run(env, items[..j + 1]), Run(pinned, items[..j + 1]), table)
  {
    NoCurrentNoWindows(env, items[..j]);
    RunGrows(env, items, j + 1);
    RunUpTo(env, items, j);
    RunUpTo(pinned, items, j);
    StepFollows(env, pinned, WindowsOf(Run(env, items)), table, Run(env, items[..j]), Run(pinned, items[..j]), items[j]);
  }

  /** Up to any point the second replay has followed the first, or it ends in another table. */
  lemma {:induction false} FollowsOrLeaves(env: Env, pinned: Env, items: seq<Observation>, table: seq<ReplayWindow>, k: nat)
    requires k <= |items|
    requires pinned.config == env.config && Pins(pinned.preserved, table)
    requires SameButLastEnd(WindowsOf(Run(env, items)), table)
    ensures if BeforeEndUpTo(env, items, table, k)
            then Follows(Run(env, items[..k]), Run(pinned, items[..k]), table)
            else WindowsOf(Run(pinned, items)) != table
  {
    if k == 0 {
    } else {
      var j := k - 1;
      FollowsOrLeaves(env, pinned, items, table, j);
      if BeforeEndUpTo(env, items, table, j) {
        if StepBeforeEnd(Run(env, items[..j]), items[j], table) {
          FollowsOneMore(env, pinned, items, table, j);
        } else {
          LateExpiryStays(pinned, items, table, j, Run(env, items[..j]));
          LeavesAt(env, items, table, WindowsOf(Run(pinned, items)), j);
        }
      }
    }
  }

  lemma FollowsToTheEnd(first: ReplayState, second: ReplayState, table: seq<ReplayWindow>)
    requires Follows(first, second, table) && SameButLastEnd(WindowsOf(first), table)
    requires first.current.None? ==> first.windows == []
    ensures WindowsOf(second) == table
  {
    if first.current.Some? {
      assert WindowsOf(first)[|first.windows|] == first.current.value;
    }
  }

  /**
    Replaying the same items with the ends and calibrations of the table they
    gave, whose last end may have been set by hand, reproduces that table exactly
    when every observation that reached the expiry test of a window, and did not
    expire it, precedes the end the table gives the window.
  */
  lemma {:induction false} RetouchedReplayExactly(env: Env, pinned: Env, items: seq<Observation>, table: seq<ReplayWindow>)
    requires pinned.config == env.config && Pins(pinned.preserved, table)
    requires SameButLastEnd(WindowsOf(Run(env, items)), table)
    ensures WindowsOf(Run(pinned, items)) == table <==> AllBeforeEnd(env, items, table)
  {
    FollowsOrLeaves(env, pinned, items, table, |items|);
    assert items[..|items|] == items;
    if AllBeforeEnd(env, items, table) {
      NoCurrentNoWindows(env, items);
      FollowsToTheEnd(Run(env, items), Run(pinned, items), table);
    }
  }

  /** In particular with the table exactly as it was, whatever the first replay had pinned and whatever profiles it used. */
  lemma {:induction false} SecondReplayExactly(env: Env, pinned: Env, items: seq<Observation>)
    requires pinned.config == env.config && Pins(pinned.preserved, WindowsOf(Run(env, items)))
    ensures WindowsOf(Run(pinned, items)) == WindowsOf(Run(env, items))
            <==> AllBeforeEnd(env, items, WindowsOf(Run(env, items)))
  {
    RetouchedReplayExactly(env, pinned, items, WindowsOf(Run(env, items)));
  }

  // ----- In the store -----

  /** With distinct starts, each row's pin survives the rows after it. */
  lemma {:induction false} RowIsPinned(rows: seq<WindowRow>, i: nat)
    requires i < |rows|
    requires forall a, b :: 0 <= a < b < |rows| ==> rows[a].window.start != rows[b].window.start
    ensures rows[i].window.start in PreservedOf(rows)
    ensures PreservedOf(rows)[rows[i].window.start] == PinnedBy(rows[i])
  {
    if i < |rows| - 1 {
      RowIsPinned(rows[..|rows| - 1], i);
    }
  }

  lemma {:induction false} RowsArePins(rows: seq<WindowRow>, table: seq<ReplayWindow>)
    requires |rows| == |table| && (forall i :: 0 <= i < |rows| ==> rows[i].window == table[i])
    requires DistinctStarts(table)
    ensures Pins(PreservedOf(rows), table)
  {
    PinsComeFromRows(rows);
    forall i | 0 <= i < |table|
      ensures table[i].start in PreservedOf(rows)
      ensures PreservedOf(rows)[table[i].start] == Pinned(table[i].end, table[i].calibration)
    {
      RowIsPinned(rows, i);
    }
    forall t | t in PreservedOf(rows) ensures exists i :: 0 <= i < |table| && table[i].start == t {
      var row :| row in rows && row.window.start == t;
      var i :| 0 <= i < |rows| && rows[i] == row;
      assert table[i].start == t;
    }
  }

  /** What the replay of an ingest read and produced. */
  function ReplayOf(cfg: Config, profile: Profile, before: Db, after: Db): (Env, seq<Observation>) {
    (Env(cfg, profile, PreservedOf(before.windows)), Backfilled(ReplayItems(after.snapshots)))
  }

  lemma {:induction false} NothingToInsert(rows: seq<Observation>)
    ensures InsertAll(rows, Sort([], AtMost)) == rows
  {
  }

  /** An ingest of nothing over a table with the rows of these windows. */
  lemma RefreshOver(cfg: Config, profile: Profile, db: Db, table: seq<ReplayWindow>)
    requires WindowsIn(db.windows) == table && DistinctStarts(table)
    ensures var env, items := Env(cfg, profile, PreservedOf(db.windows)), Backfilled(ReplayItems(db.snapshots));
            var r := IngestStep(cfg, profile, db, []);
            && Pins(env.preserved, table)
            && (WindowsOf(Run(env, items)) == table <==> r.Success? && WindowsIn(r.value.windows) == table)
            && (r.Success? ==> r.value == Db(db.snapshots, RowsFor(WindowsOf(Run(env, items)), LatestReset(db.resets)), db.resets))
  {
    NothingToInsert(db.snapshots);
    RowsArePins(db.windows, table);
    var env, items := Env(cfg, profile, PreservedOf(db.windows)), Backfilled(ReplayItems(db.snapshots));
    RowsKeepWindows(WindowsOf(Run(env, items)), LatestReset(db.resets));
  }

  /**
    After any ingest, over any store, the refresh a session start performs, an
    ingest of nothing under whatever profiles are selected by then, leaves the
    store as it is exactly under that condition.
  */
  lemma RefreshIsStableExactly(cfg: Config, profile: Profile, before: Db, batch: seq<Observation>, later: Profile)
    requires IngestStep(cfg, profile, before, batch).Success?
    ensures var db := IngestStep(cfg, profile, before, batch).value;
            var (env, items) := ReplayOf(cfg, profile, before, db);
            IngestStep(cfg, later, db, []) == Success(db) <==> AllBeforeEnd(env, items, WindowsIn(db.windows))
  {
    var db := IngestStep(cfg, profile, before, batch).value;
    var (env, items) := ReplayOf(cfg, profile, before, db);
    RowsKeepWindows(WindowsOf(Run(env, items)), LatestReset(before.resets));
    RefreshOver(cfg, later, db, WindowsOf(Run(env, items)));
    SecondReplayExactly(env, Env(cfg, later, PreservedOf(db.windows)), items);
  }

  // ----- After a manual reset -----

  lemma ResetSetsLastEnd(db: Db, now: Time)
    requires OnlyLastIsCurrent(db.windows) && HasCurrent(db.windows)
    ensures SameButLastEnd(WindowsIn(db.windows), WindowsIn(ResetStep(db, now).windows))
    ensures db.windows != [] && db.windows[|db.windows| - 1].isCurrent
  {
    var i :| 0 <= i < |db.windows| && db.windows[i].isCurrent;
  }

  lemma SameStarts(a: seq<ReplayWindow>, b: seq<ReplayWindow>)
    requires SameButLastEnd(a, b) && DistinctStarts(a)
    ensures DistinctStarts(b)
  {
    assert forall i :: 0 <= i < |a| ==> b[i].start == a[i].start;
  }

  /**
    A manual reset survives the next refresh, that is, the shortened window keeps
    its end and all others stay as they are, exactly when every observation that
    reached the expiry test of a window precedes the end the reset table gives it.
  */
  lemma ResetSurvivesExactly(cfg: Config, profile: Profile, before: Db, batch: seq<Observation>, now: Time, later: Profile)
    requires IngestStep(cfg, profile, before, batch).Success?
    requires HasCurrent(IngestStep(cfg, profile, before, batch).value.windows)
    ensures var db := IngestStep(cfg, profile, before, batch).value;
            var (env, items) := ReplayOf(cfg, profile, before, db);
            var reset := ResetStep(db, now);
            var r := IngestStep(cfg, later, reset, []);
            (r.Success? && WindowsIn(r.value.windows) == WindowsIn(reset.windows))
            <==> AllBeforeEnd(env, items, WindowsIn(reset.windows))
  {
    var db := IngestStep(cfg, profile, before, batch).value;
    var (env, items) := ReplayOf(cfg, profile, before, db);
    var reset := ResetStep(db, now);
    RowsKeepWindows(WindowsOf(Run(env, items)), LatestReset(before.resets));
    ResetSetsLastEnd(db, now);
    SameStarts(WindowsIn(db.windows), WindowsIn(reset.windows));
    RefreshOver(cfg, later, reset, WindowsIn(reset.windows));
    RetouchedReplayExactly(env, Env(cfg, later, PreservedOf(reset.windows)), items, WindowsIn(reset.windows));
  }

  lemma {:induction false} LatestResetOneMore(resets: seq<Time>, now: Time)
    ensures LatestReset(resets + [now])
            == Some(if LatestReset(resets).Some? then MaxTime(now, LatestReset(resets).value) else now)
  {
    if resets != [] {
      LatestResetOneMore(resets[1..], now);
      assert (resets + [now])[1..] == resets[1..] + [now];
    } else {
      assert (resets + [now])[1..] == [];
    }
  }

  lemma {:induction false} FlagAfterRefresh(ws: seq<ReplayWindow>, resets: seq<Time>, now: Time)
    requires ws != [] && (LatestReset(resets).None? || LatestReset(resets).value < ws[|ws| - 1].latestAt)
    ensures HasCurrent(RowsFor(ws, LatestReset(resets + [now]))) <==> now < ws[|ws| - 1].latestAt
  {
    LatestResetOneMore(resets, now);
    var rows := RowsFor(ws, LatestReset(resets + [now]));
    assert rows[|ws| - 1].isCurrent == IsCurrent(ws, |ws| - 1, LatestReset(resets + [now]));
  }

  lemma {:induction false} CurrentIsRecent(ws: seq<ReplayWindow>, resets: seq<Time>)
    requires HasCurrent(RowsFor(ws, LatestReset(resets)))
    ensures ws != [] && (LatestReset(resets).None? || LatestReset(resets).value < ws[|ws| - 1].latestAt)
  {
  }

  /** If it survives, the window is current again exactly when it was observed after the reset. */
  lemma ResetStaysArchivedExactly(cfg: Config, profile: Profile, before: Db, batch: seq<Observation>, now: Time, later: Profile)
    requires IngestStep(cfg, profile, before, batch).Success?
    requires HasCurrent(IngestStep(cfg, profile, before, batch).value.windows)
    ensures var db := IngestStep(cfg, profile, before, batch).value;
            var reset := ResetStep(db, now);
            var r := IngestStep(cfg, later, reset, []);
            db.windows != [] &&
            (r.Success? && WindowsIn(r.value.windows) == WindowsIn(reset.windows) ==>
               (HasCurrent(r.value.windows) <==> now < db.windows[|db.windows| - 1].window.latestAt))
  {
    var db := IngestStep(cfg, profile, before, batch).value;
    var reset := ResetStep(db, now);
    var ws := RebuiltWindows(cfg, profile, db.snapshots, before.windows);
    RowsKeepWindows(ws, LatestReset(before.resets));
    CurrentIsRecent(ws, before.resets);
    ResetSetsLastEnd(db, now);
    SameStarts(ws, WindowsIn(reset.windows));
    RefreshOver(cfg, later, reset, WindowsIn(reset.windows));
    FlagAfterRefresh(WindowsIn(reset.windows), db.resets, now);
    RowsKeepWindows(RebuiltWindows(cfg, later, reset.snapshots, reset.windows), LatestReset(reset.resets));
  }
}
