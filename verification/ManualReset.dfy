/**
  What a manual reset (`reset_current_window` in `src/persistence.rs`) means for
  the readings that follow it: they no longer count towards the window it ended.
*/
module ManualReset {
  import opened Options
  import opened UsageModel
  import opened Sorting
  import opened ResetClassifier
  import opened WindowReplay
  import opened ReplayInvariants
  import opened WindowMeaning
  import opened StateStore
  import opened SnapshotTable
  import opened TableGrowth
  import opened TableInvariants
  import opened ReplayFixpoint
  import Backfill

  /** The reset ends exactly the current window, at `now` or, dated before its start, at its start. */
  lemma ResetEndsCurrent(db: Db, now: Time)
    requires HasCurrent(db.windows)
    ensures EndedAt(db.windows, ResetStep(db, now).windows, now)
    ensures ResetStep(db, now).snapshots == db.snapshots && ResetStep(db, now).resets == db.resets + [now]
  {
  }

  // ----- Any later ingest -----

  /** Whatever is ingested next, the window that was reset takes in no reading at or after the end it was given. */
  lemma {:induction false} ResetDividesWindow(cfg: Config, profile: Profile, db: Db, now: Time, batch: seq<Observation>, i: nat)
    requires TableInvariant(db) && i < |db.windows| && db.windows[i].isCurrent
    requires IngestStep(cfg, profile, ResetStep(db, now), batch).Success?
    requires LoadedTable(IngestStep(cfg, profile, ResetStep(db, now), batch).value)
    ensures var after := IngestStep(cfg, profile, ResetStep(db, now), batch).value;
            var (env, items) := ReplayOf(cfg, profile, ResetStep(db, now), after);
            var groups, was := Members(Run(env, items).accepted), db.windows[i].window;
            && |groups| == |after.windows|
            && forall k :: 0 <= k < |groups| && after.windows[k].window.start == was.start ==>
                 && after.windows[k].window.end <= MaxTime(now, was.start)
                 && ContinueBefore(groups[k], MaxTime(now, was.start))
  {
    var reset := ResetStep(db, now);
    var after := IngestStep(cfg, profile, reset, batch).value;
    var (env, items) := ReplayOf(cfg, profile, reset, after);
    var was := db.windows[i].window;
    ResetKeepsTable(db, now);
    RowIsPinnedTo(reset, i);
    ItemsAreRows(after.snapshots);
    BackfilledStaysLoaded(ReplayItems(after.snapshots));
    WindowsSummariseReadings(env, items);
    var ws, groups := WindowsOf(Run(env, items)), Members(Run(env, items).accepted);
    RowsKeepWindows(ws, LatestReset(reset.resets));
    forall k | 0 <= k < |groups| && ws[k].start == was.start
      ensures ws[k].end <= MaxTime(now, was.start) && ContinueBefore(groups[k], MaxTime(now, was.start))
    {
      assert WindowFits(env, ws[k], groups, k);
    }
  }

  lemma {:induction false} RowIsPinnedTo(db: Db, i: nat)
    requires TableInvariant(db) && i < |db.windows|
    ensures var w := db.windows[i].window;
            w.start in PreservedOf(db.windows) && PreservedOf(db.windows)[w.start] == Pinned(w.end, w.calibration)
  {
    assert forall a, b :: 0 <= a < b < |db.windows| ==>
        db.windows[a].window.start == WindowsIn(db.windows)[a].start != WindowsIn(db.windows)[b].start == db.windows[b].window.start;
    RowIsPinned(db.windows, i);
  }

  lemma BackfilledStaysLoaded(items: seq<Observation>)
    requires Loaded(items)
    ensures Loaded(Backfilled(items))
  {
    forall i | 0 <= i < |items| ensures Backfilled(items)[i].weekly == items[i].weekly {
      Backfill.BackfillKeepsTheRest(items, i);
    }
  }

  // ----- The next reading -----

  /** A newest weekly-only reading leaves the backfill of what came before as it was. */
  lemma {:induction false} BackfillAppend(items: seq<Observation>, reading: Observation)
    requires reading.fiveHour.None?
    ensures BackfillAll(items + [reading]) == (BackfillAll(items).0 + [reading], BackfillAll(items).1)
  {
    if items == [] {
      assert items + [reading] == [reading];
      var one := [reading];
      assert one[1..] == [] && BackfillAll(one[1..]) == ([], None);
      assert BackfillAll(one).0 == [reading] == BackfillAll(items).0 + [reading];
    } else {
      BackfillAppend(items[1..], reading);
      var more := items + [reading];
      assert more[1..] == items[1..] + [reading] && more[0] == items[0];
      var (rest, known) := BackfillAll(items[1..]);
      var (head, left) := BackfillStep(items[0], known);
      assert [head] + (rest + [reading]) == ([head] + rest) + [reading];
    }
  }

  /** A row that is new and not before any other becomes the last replay item. */
  ghost predicate IsNewestRow(rows: seq<Observation>, reading: Observation) {
    !HasId(rows, reading.id) && forall o :: o in rows ==> AtMost(o, reading)
  }

  lemma {:induction false} NewestComesLast(rows: seq<Observation>, reading: Observation)
    requires DistinctIds(rows) && IsNewestRow(rows, reading)
    ensures InsertAll(rows, Sort([reading], AtMost)) == rows + [reading]
    ensures ReplayItems(rows + [reading]) == ReplayItems(rows) + [reading]
  {
    SortIdentity([reading], AtMost);
    assert [reading][..0] == [];
    var more, sorted := rows + [reading], ReplayItems(rows) + [reading];
    AtMostIsTotal();
    ItemsAreRows(rows);
    SortPermutes(rows, AtMost);
    SortPermutes(more, AtMost);
    SortSorted(more, AtMost);
    forall x, y | x in ReplayItems(more) && y in ReplayItems(more) && AtMost(x, y) && AtMost(y, x) ensures x == y {
      ItemsAreRows(more);
      SameRowAtSamePlace(more, x, y);
    }
    forall i, j | 0 <= i < j < |sorted| ensures AtMost(sorted[i], sorted[j]) {
      if j == |rows| {
        assert sorted[i] in ReplayItems(rows);
      }
    }
    SortedUnique(ReplayItems(more), sorted, AtMost);
  }

  /** Over a window that is over, a weekly-only reading of the current weekly epoch opens the next one. */
  lemma ReadingAfterEnd(env: Env, st: ReplayState, reading: Observation)
    requires Tracks(st) && st.current.Some? && reading.fiveHour.None? && reading.weekly.Some?
    requires st.current.value.end <= reading.at && reading.at !in env.preserved
    ensures var last, ws := st.accepted[|st.accepted| - 1].item, WindowsOf(Step(env, st, reading));
            if MovedBack(last.weekly, reading.weekly, WEEKLY_MINUTES) then ws == WindowsOf(st)
            else |ws| == |WindowsOf(st)| + 1 && ws[..|ws| - 1] == WindowsOf(st)
                 && OpenedBy(env, ws[|ws| - 1], reading)
  {
    var last := st.accepted[|st.accepted| - 1].item;
    OldEpochExactly(last, reading);
    if !MovedBack(last.weekly, reading.weekly, WEEKLY_MINUTES) {
      assert Judge(st, reading) == Admit(Expired);
      assert WindowsOf(Step(env, st, reading))[..|st.windows| + 1] == WindowsOf(st);
    }
  }

  /** A fresh window of one duration that starts with the reading and holds nothing yet. */
  ghost predicate OpenedBy(env: Env, w: ReplayWindow, reading: Observation) {
    && w.start == w.latestAt == reading.at && w.end == reading.at + env.config.duration
    && w.latestId == reading.id && w.points == 0.0 && w.kind == LocalExpiry
    && w.calibration == env.profile(reading)
  }

  /** A replay over the reset table is at the reset table's last window when the reading arrives. */
  lemma {:induction false} ReplayStopsAtReset(env: Env, pinned: Env, items: seq<Observation>, table: seq<ReplayWindow>)
    requires pinned.config == env.config && Pins(pinned.preserved, table)
    requires SameButLastEnd(WindowsOf(Run(env, items)), table) && table != []
    requires AllBeforeEnd(env, items, table) && Loaded(items)
    ensures var st := Run(pinned, items);
            && WindowsOf(st) == table && Tracks(st)
            && st.current == Some(table[|table| - 1]) && st.accepted == Run(env, items).accepted
  {
    FollowsOrLeaves(env, pinned, items, table, |items|);
    assert items[..|items|] == items;
    NoCurrentNoWindows(env, items);
    FollowsToTheEnd(Run(env, items), Run(pinned, items), table);
    RunTracks(pinned, items);
  }

  lemma {:induction false} NextReplay(cfg: Config, later: Profile, reset: Db, reading: Observation)
    requires DistinctIds(reset.snapshots) && IsNewestRow(reset.snapshots, reading) && reading.fiveHour.None?
    ensures var pinned := Env(cfg, later, PreservedOf(reset.windows));
            var ws := WindowsOf(Step(pinned, Run(pinned, Backfilled(ReplayItems(reset.snapshots))), reading));
            IngestStep(cfg, later, reset, [reading]) ==
            if DistinctStarts(ws)
            then Success(Db(reset.snapshots + [reading], RowsFor(ws, LatestReset(reset.resets)), reset.resets))
            else Failure(DuplicateWindowStart)
  {
    var pinned, items := Env(cfg, later, PreservedOf(reset.windows)), ReplayItems(reset.snapshots);
    NewestComesLast(reset.snapshots, reading);
    BackfillAppend(items, reading);
    RunAppend(pinned, Backfilled(items), reading);
  }

  /**
    What ingesting one weekly-only reading makes of a table whose last window is
    over: nothing if the reading is of an old weekly epoch, a failure if a window
    already starts at its instant, and one more window otherwise.
  */
  ghost predicate OpensNext(r: Result<Db, StoreError>, cfg: Config, later: Profile, table: seq<ReplayWindow>,
                            last: Observation, reading: Observation)
  {
    if MovedBack(last.weekly, reading.weekly, WEEKLY_MINUTES)
    then r.Success? && WindowsIn(r.value.windows) == table
    else if exists w :: w in table && w.start == reading.at then r.Failure?
    else r.Success? && |r.value.windows| == |table| + 1
         && WindowsIn(r.value.windows)[..|table|] == table
         && OpenedBy(Env(cfg, later, map[]), r.value.windows[|table|].window, reading)
  }

  /**
    After a manual reset that survives, the next reading taken at or after it
    opens a new window: the table grows by that window, or the reading is of an
    old weekly epoch and the table stays, or a window already starts at that very
    instant and the ingest fails.
  */
  lemma ReadingAfterResetExactly(cfg: Config, profile: Profile, before: Db, batch: seq<Observation>, now: Time,
                                 later: Profile, reading: Observation)
    requires IngestStep(cfg, profile, before, batch).Success?
    requires var db := IngestStep(cfg, profile, before, batch).value;
             && HasCurrent(db.windows) && DistinctIds(db.snapshots) && LoadedTable(db)
             && IsNewestRow(db.snapshots, reading)
             && (forall row :: row in db.windows && row.isCurrent ==> MaxTime(now, row.window.start) <= reading.at)
    requires reading.fiveHour.None? && reading.weekly.Some?
    requires var db := IngestStep(cfg, profile, before, batch).value;
             var (env, items) := ReplayOf(cfg, profile, before, db);
             AllBeforeEnd(env, items, WindowsIn(ResetStep(db, now).windows))
    ensures var db := IngestStep(cfg, profile, before, batch).value;
            var (env, items) := ReplayOf(cfg, profile, before, db);
            var reset := ResetStep(db, now);
            var last := Previous(Run(env, items).accepted);
            && last.Some?
            && OpensNext(IngestStep(cfg, later, reset, [reading]), cfg, later, WindowsIn(reset.windows), last.value, reading)
  {
    var db := IngestStep(cfg, profile, before, batch).value;
    var (env, items) := ReplayOf(cfg, profile, before, db);
    RowsKeepWindows(WindowsOf(Run(env, items)), LatestReset(before.resets));
    ItemsAreRows(db.snapshots);
    BackfilledStaysLoaded(ReplayItems(db.snapshots));
    var st := ReplayOverReset(env, items, db, now, later);
    IngestOutcome(cfg, later, ResetStep(db, now), st, WindowsIn(ResetStep(db, now).windows), reading);
  }

  /** The replay of what is stored, over the table a manual reset left. */
  lemma {:induction false} ReplayOverReset(env: Env, items: seq<Observation>, db: Db, now: Time, later: Profile) returns (st: ReplayState)
    requires WindowsIn(db.windows) == WindowsOf(Run(env, items)) && DistinctStarts(WindowsIn(db.windows))
    requires OnlyLastIsCurrent(db.windows) && HasCurrent(db.windows) && Loaded(items)
    requires AllBeforeEnd(env, items, WindowsIn(ResetStep(db, now).windows))
    ensures var reset := ResetStep(db, now);
            var table, pinned := WindowsIn(reset.windows), Env(env.config, later, PreservedOf(reset.windows));
            && st == Run(pinned, items) && Pins(pinned.preserved, table)
            && WindowsOf(st) == table && Tracks(st) && st.accepted == Run(env, items).accepted
            && db.windows != [] && st.current.Some? && EndsAtReset(db.windows[|db.windows| - 1], st.current.value.end, now)
  {
    var reset := ResetStep(db, now);
    var table, pinned := WindowsIn(reset.windows), Env(env.config, later, PreservedOf(reset.windows));
    ResetSetsLastEnd(db, now);
    SameStarts(WindowsIn(db.windows), table);
    RowsArePins(reset.windows, table);
    ReplayStopsAtReset(env, pinned, items, table);
    st := Run(pinned, items);
  }

  ghost predicate EndsAtReset(row: WindowRow, end: Time, now: Time) {
    row.isCurrent && end == MaxTime(now, row.window.start)
  }

  /** Which of the three happens, of a replay that stands at the last window of the table. */
  lemma Outcome(pinned: Env, st: ReplayState, table: seq<ReplayWindow>, reading: Observation)
    requires Pins(pinned.preserved, table) && Tracks(st) && WindowsOf(st) == table
    requires st.current.Some? && st.current.value.end <= reading.at
    requires reading.fiveHour.None? && reading.weekly.Some?
    ensures var last, ws := st.accepted[|st.accepted| - 1].item, WindowsOf(Step(pinned, st, reading));
            if MovedBack(last.weekly, reading.weekly, WEEKLY_MINUTES) then ws == table && DistinctStarts(ws)
            else if exists w :: w in table && w.start == reading.at then !DistinctStarts(ws)
            else DistinctStarts(ws) && |ws| == |table| + 1 && ws[..|table|] == table
                 && OpenedBy(pinned, ws[|table|], reading)
  {
    var last, ws := st.accepted[|st.accepted| - 1].item, WindowsOf(Step(pinned, st, reading));
    OldEpochExactly(last, reading);
    if !MovedBack(last.weekly, reading.weekly, WEEKLY_MINUTES) {
      assert Judge(st, reading) == Admit(Expired);
      assert ws[..|table|] == table && |ws| == |table| + 1 && ws[|table|].start == reading.at;
      assert forall i :: 0 <= i < |table| ==> ws[i] == table[i];
      if w :| w in table && w.start == reading.at {
        var i :| 0 <= i < |table| && table[i] == w;
        assert ws[i].start == ws[|table|].start;
      } else {
        assert reading.at !in pinned.preserved;
        ReadingAfterEnd(pinned, st, reading);
      }
    }
  }

  lemma IngestOutcome(cfg: Config, later: Profile, reset: Db, st: ReplayState, table: seq<ReplayWindow>, reading: Observation)
    requires DistinctIds(reset.snapshots) && IsNewestRow(reset.snapshots, reading)
    requires var pinned := Env(cfg, later, PreservedOf(reset.windows));
             && st == Run(pinned, Backfilled(ReplayItems(reset.snapshots)))
             && Pins(pinned.preserved, table)
    requires Tracks(st) && WindowsOf(st) == table && st.current.Some? && st.current.value.end <= reading.at
    requires reading.fiveHour.None? && reading.weekly.Some?
    ensures OpensNext(IngestStep(cfg, later, reset, [reading]), cfg, later, table, st.accepted[|st.accepted| - 1].item, reading)
  {
    var pinned := Env(cfg, later, PreservedOf(reset.windows));
    NextReplay(cfg, later, reset, reading);
    Outcome(pinned, st, table, reading);
    RowsKeepWindows(WindowsOf(Step(pinned, st, reading)), LatestReset(reset.resets));
  }

  // ----- With weekly-only data nothing stands in the way -----

  ghost predicate StartsAtSome(w: ReplayWindow, items: seq<Observation>) {
    exists o :: o in items && w.start == o.at
  }

  /** Weekly-only windows start with readings and never at a server boundary. */
  lemma {:induction false} WeeklyWindows(env: Env, items: seq<Observation>)
    requires NoFiveHour(items)
    ensures forall w :: w in WindowsOf(Run(env, items)) ==> !w.kind.ServerBoundary? && StartsAtSome(w, items)
  {
    if items != [] {
      var prefix, item := items[..|items| - 1], items[|items| - 1];
      var st, after := Run(env, prefix), Run(env, items);
      WeeklyWindows(env, prefix);
      WeeklyItemNeverSplits(st, item);
      assert st.current.Some? ==> st.current.value in WindowsOf(st);
      forall w | w in WindowsOf(after) ensures !w.kind.ServerBoundary? && StartsAtSome(w, items) {
        if was :| was in WindowsOf(st) && was.start == w.start && was.kind == w.kind {
          var o :| o in prefix && was.start == o.at;
          assert o in items;
        } else {
          assert w in st.windows ==> w in WindowsOf(st);
          assert w.start == item.at && item in items;
        }
      }
    }
  }

  /** A reset dated after all weekly-only readings leaves each of them before the end of its window. */
  lemma {:induction false} WeeklyBeforeEnd(env: Env, items: seq<Observation>, table: seq<ReplayWindow>, now: Time, k: nat)
    requires k <= |items| && NoFiveHour(items) && SameButLastEnd(WindowsOf(Run(env, items)), table)
    requires table != [] ==> now <= table[|table| - 1].end
    requires forall o :: o in items ==> o.at < now
    ensures BeforeEndUpTo(env, items, table, k)
  {
    if k > 0 {
      WeeklyBeforeEnd(env, items, table, now, k - 1);
      var st, item := Run(env, items[..k - 1]), items[k - 1];
      if st.current.Some? {
        ClippedBySplit(env, items, k - 1);
        WeeklyWindows(env, items);
        assert item.at < now;
        StillBefore(WindowsOf(Run(env, items)), table, st, item);
      }
    }
  }

  lemma StillBefore(windows: seq<ReplayWindow>, table: seq<ReplayWindow>, st: ReplayState, item: Observation)
    requires st.current.Some? && |st.windows| < |windows| && SameButLastEnd(windows, table)
    requires windows[|st.windows|].end != st.current.value.end ==>
               |st.windows| + 1 < |windows| && windows[|st.windows| + 1].kind.ServerBoundary?
    requires forall w :: w in windows ==> !w.kind.ServerBoundary?
    requires item.at < table[|table| - 1].end
    ensures StepBeforeEnd(st, item, table)
  {
    assert windows[|st.windows|].end == st.current.value.end;
  }

  /**
    Weekly-only data, a manual reset dated after every stored reading, and then a
    reading at or after it, of the current weekly epoch: the ingest succeeds, the
    window that was reset ends where the reset put it, and the reading opens a
    new window of its own.
  */
  lemma NextReadingOpensWindow(cfg: Config, profile: Profile, before: Db, batch: seq<Observation>, now: Time,
                               later: Profile, reading: Observation)
    requires IngestStep(cfg, profile, before, batch).Success?
    requires var db := IngestStep(cfg, profile, before, batch).value;
             && HasCurrent(db.windows) && DistinctIds(db.snapshots) && WeeklyOnlyTable(db)
             && (forall o :: o in db.snapshots ==> o.at < now)
             && !HasId(db.snapshots, reading.id)
    requires reading.fiveHour.None? && reading.weekly.Some? && now <= reading.at
    ensures var db := IngestStep(cfg, profile, before, batch).value;
            var (env, items) := ReplayOf(cfg, profile, before, db);
            var r := IngestStep(cfg, later, ResetStep(db, now), [reading]);
            var last, n := Previous(Run(env, items).accepted), |db.windows|;
            && last.Some? && r.Success? && KeepsButLastEnd(WindowsIn(db.windows), r.value.windows, now)
            && if MovedBack(last.value.weekly, reading.weekly, WEEKLY_MINUTES) then |r.value.windows| == n
               else |r.value.windows| == n + 1
                    && OpenedBy(Env(cfg, later, map[]), r.value.windows[n].window, reading)
  {
    var db := IngestStep(cfg, profile, before, batch).value;
    var (env, items) := ReplayOf(cfg, profile, before, db);
    WeeklyResetSurvives(cfg, profile, before, batch, now);
    ReadingAfterResetExactly(cfg, profile, before, batch, now, later, reading);
    OpensBeyond(IngestStep(cfg, later, ResetStep(db, now), [reading]), cfg, later, WindowsIn(db.windows),
                WindowsIn(ResetStep(db, now).windows), Previous(Run(env, items).accepted).value, reading, now);
  }

  /** The reset of a weekly-only table, seen from the next replay. */
  lemma WeeklyResetSurvives(cfg: Config, profile: Profile, before: Db, batch: seq<Observation>, now: Time)
    requires IngestStep(cfg, profile, before, batch).Success?
    requires var db := IngestStep(cfg, profile, before, batch).value;
             && HasCurrent(db.windows) && WeeklyOnlyTable(db)
             && (forall o :: o in db.snapshots ==> o.at < now)
    ensures var db := IngestStep(cfg, profile, before, batch).value;
            var (env, items) := ReplayOf(cfg, profile, before, db);
            var table := WindowsIn(ResetStep(db, now).windows);
            && AllBeforeEnd(env, items, table)
            && LastEndsAt(WindowsIn(db.windows), table, now)
            && (forall row :: row in db.windows ==> row.window.start < now)
  {
    var db := IngestStep(cfg, profile, before, batch).value;
    var (env, items) := ReplayOf(cfg, profile, before, db);
    RowsKeepWindows(WindowsOf(Run(env, items)), LatestReset(before.resets));
    WeeklyItems(db.snapshots);
    WeeklyReset(env, items, db, now);
  }

  lemma WeeklyItems(rows: seq<Observation>)
    requires forall o :: o in rows ==> o.fiveHour.None?
    ensures NoFiveHour(Backfilled(ReplayItems(rows))) && forall o :: o in Backfilled(ReplayItems(rows)) ==> o in rows
  {
    ItemsAreRows(rows);
    Backfill.BackfillWeeklyOnly(ReplayItems(rows));
  }

  lemma {:induction false} WeeklyReset(env: Env, items: seq<Observation>, db: Db, now: Time)
    requires WindowsIn(db.windows) == WindowsOf(Run(env, items))
    requires OnlyLastIsCurrent(db.windows) && HasCurrent(db.windows)
    requires NoFiveHour(items) && forall o :: o in items ==> o.at < now
    ensures var table := WindowsIn(ResetStep(db, now).windows);
            && AllBeforeEnd(env, items, table)
            && LastEndsAt(WindowsIn(db.windows), table, now)
            && (forall row :: row in db.windows ==> row.window.start < now)
  {
    WeeklyWindows(env, items);
    ResetSetsLastEnd(db, now);
    ResetEnds(db, WindowsOf(Run(env, items)), now);
    WeeklyBeforeEnd(env, items, WindowsIn(ResetStep(db, now).windows), now, |items|);
  }

  /** The same windows, the last of which ends at `now`, and all of which start before it. */
  ghost predicate LastEndsAt(ws: seq<ReplayWindow>, table: seq<ReplayWindow>, now: Time) {
    var n := |ws|;
    && |table| == n > 0 && table[..n - 1] == ws[..n - 1] && table[n - 1] == ws[n - 1].(end := now)
    && (forall w :: w in table ==> w.start < now)
  }

  /** The rows begin with the same windows, of which the last ends at `now`. */
  ghost predicate KeepsButLastEnd(ws: seq<ReplayWindow>, rows: seq<WindowRow>, now: Time) {
    var n := |ws|;
    && 0 < n <= |rows| && WindowsIn(rows)[..n - 1] == ws[..n - 1] && rows[n - 1].window == ws[n - 1].(end := now)
  }

  lemma ExtendsTable(ws: seq<ReplayWindow>, table: seq<ReplayWindow>, rows: seq<WindowRow>, now: Time)
    requires LastEndsAt(ws, table, now) && |table| <= |rows| && WindowsIn(rows)[..|table|] == table
    ensures KeepsButLastEnd(ws, rows, now)
  {
    assert WindowsIn(rows)[..|table|][..|table| - 1] == WindowsIn(rows)[..|table| - 1];
    assert WindowsIn(rows)[..|table|][|table| - 1] == rows[|table| - 1].window;
  }

  /** After a reset later than all starts, nothing can fail. */
  lemma OpensBeyond(r: Result<Db, StoreError>, cfg: Config, later: Profile, ws: seq<ReplayWindow>, table: seq<ReplayWindow>,
                    last: Observation, reading: Observation, now: Time)
    requires OpensNext(r, cfg, later, table, last, reading) && LastEndsAt(ws, table, now) && now <= reading.at
    ensures r.Success? && KeepsButLastEnd(ws, r.value.windows, now)
    ensures if MovedBack(last.weekly, reading.weekly, WEEKLY_MINUTES) then |r.value.windows| == |ws|
            else |r.value.windows| == |ws| + 1 && OpenedBy(Env(cfg, later, map[]), r.value.windows[|ws|].window, reading)
  {
    assert WindowsIn(r.value.windows)[..|table|] == table;
    ExtendsTable(ws, table, r.value.windows, now);
  }

  /** Where all windows start before the reset, the last one ends at it. */
  lemma ResetEnds(db: Db, ws: seq<ReplayWindow>, now: Time)
    requires OnlyLastIsCurrent(db.windows) && HasCurrent(db.windows) && WindowsIn(db.windows) == ws
    requires forall w :: w in ws ==> w.start < now
    ensures LastEndsAt(ws, WindowsIn(ResetStep(db, now).windows), now)
            && (forall row :: row in db.windows ==> row.window.start < now)
  {
    var table, n := WindowsIn(ResetStep(db, now).windows), |ws|;
    var i :| 0 <= i < |db.windows| && db.windows[i].isCurrent;
    assert forall k :: 0 <= k < n ==> table[k].start == ws[k].start && ws[k] in ws;
    assert forall k :: 0 <= k < n - 1 ==> table[k] == ws[k];
  }
}
