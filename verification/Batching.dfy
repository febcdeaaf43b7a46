/**
  Batching and order independence: for weekly-only snapshots, one fixed
  configuration and calibration profile and no manual reset, exactly when the
  windows table depends only on which snapshots were ingested.
*/
module Batching {
  import opened Options
  import opened UsageModel
  import opened Sorting
  import opened WindowReplay
  import opened ReplayInvariants
  import opened StateStore
  import opened SnapshotTable
  import opened TableGrowth
  import Backfill

  /** The observations of a run of batches: weekly-only, one observation per id. */
  ghost predicate WeeklyRows(all: set<Observation>) {
    OneRowPerId(all) && forall o :: o in all ==> o.fiveHour.None? && o.weekly.Some?
  }

  ghost predicate Weekly(items: seq<Observation>) {
    NoFiveHour(items) && Loaded(items)
  }

  /** The bounds and calibration `o` gives a window it opens with nothing pinned. */
  ghost predicate FreshFrom(cfg: Config, profile: Profile, w: ReplayWindow, o: Observation) {
    w.start == o.at && w.end == o.at + cfg.duration && w.calibration == profile(o)
  }

  function Unpinned(env: Env): Env {
    env.(preserved := map[])
  }

  /** Whatever is pinned at the start of one of these windows is what that window has. */
  ghost predicate PinnedAs(env: Env, table: seq<ReplayWindow>) {
    forall w :: w in table && w.start in env.preserved ==>
      env.preserved[w.start] == Pinned(w.start + env.config.duration, w.calibration)
  }

  lemma OpenUnpinned(env: Env, st: ReplayState, item: Observation, how: Admission)
    requires item.fiveHour.None? && !how.Split?
    requires item.at in env.preserved ==>
      env.preserved[item.at] == Pinned(item.at + env.config.duration, env.profile(item))
    ensures Open(env, st, item, how) == Open(Unpinned(env), st, item, how)
  {
  }

  lemma OpenedFresh(env: Env, st: ReplayState, item: Observation, how: Admission)
    requires item.fiveHour.None? && !how.Split? && env.preserved == map[]
    ensures FreshFrom(env.config, env.profile, Open(env, st, item, how).current.value, item)
  {
  }

  /** A window opened on the way is still there at the end, with its start and calibration. */
  lemma {:induction false} OpenedStays(env: Env, items: seq<Observation>, k: nat)
    requires k < |items| && env.preserved == map[] && items[k].fiveHour.None?
    requires Judge(Run(env, items[..k]), items[k]).Admit?
    ensures exists w :: w in WindowsOf(Run(env, items)) && w.start == items[k].at && w.calibration == env.profile(items[k])
  {
    var st, item := Run(env, items[..k]), items[k];
    WeeklyItemNeverSplits(st, item);
    OpenedFresh(env, st, item, Judge(st, item).how);
    assert items[..k + 1][..k] == items[..k];
    var after, table := WindowsOf(Run(env, items[..k + 1])), WindowsOf(Run(env, items));
    RunGrows(env, items, k + 1);
    assert SameIdentity(after[|after| - 1], table[|after| - 1]);
    assert table[|after| - 1] in table;
  }

  /** What is pinned never changes a weekly-only replay whose windows it agrees with. */
  lemma {:induction false} AgreeingPinsAreIrrelevant(env: Env, items: seq<Observation>, k: nat)
    requires NoFiveHour(items) && k <= |items| && PinnedAs(env, WindowsOf(Run(Unpinned(env), items)))
    ensures Run(env, items[..k]) == Run(Unpinned(env), items[..k])
  {
    if k > 0 {
      AgreeingPinsAreIrrelevant(env, items, k - 1);
      assert items[..k][..k - 1] == items[..k - 1];
      var st, item := Run(env, items[..k - 1]), items[k - 1];
      WeeklyItemNeverSplits(st, item);
      if Judge(st, item).Admit? {
        OpenedStays(Unpinned(env), items, k - 1);
        OpenUnpinned(env, st, item, Judge(st, item).how);
      }
    }
  }

  /** `preserved` never changes the result of a weekly-only replay whose windows it agrees with. */
  lemma {:induction false} PreservedIsIrrelevant(env: Env, items: seq<Observation>)
    requires NoFiveHour(items) && PinnedAs(env, WindowsOf(Run(Unpinned(env), items)))
    ensures Run(env, items) == Run(Unpinned(env), items)
  {
    AgreeingPinsAreIrrelevant(env, items, |items|);
    assert items[..|items|] == items;
  }

  // ----- Windows are fresh, whatever calibrations are pinned -----

  /** Each pin is what some reading of that instant would have given a window. */
  ghost predicate FreshPins(env: Env, from: set<Observation>) {
    forall t :: t in env.preserved ==>
      exists o :: o in from && o.at == t && env.preserved[t] == Pinned(t + env.config.duration, env.profile(o))
  }

  ghost predicate AllFresh(cfg: Config, profile: Profile, ws: seq<ReplayWindow>, from: set<Observation>) {
    forall w :: w in ws ==> exists o :: o in from && FreshFrom(cfg, profile, w, o)
  }

  /** Every window of a weekly-only replay over such pins is the fresh window of some reading of its first instant. */
  lemma {:induction false} WindowsAreFresh(env: Env, items: seq<Observation>, from: set<Observation>)
    requires NoFiveHour(items) && Elements(items) <= from && FreshPins(env, from)
    ensures AllFresh(env.config, env.profile, WindowsOf(Run(env, items)), from)
  {
    if items == [] {
    } else {
      var prefix, item := items[..|items| - 1], items[|items| - 1];
      assert item in Elements(items) && Elements(prefix) <= Elements(items);
      WindowsAreFresh(env, prefix, from);
      FreshStep(env, Run(env, prefix), item, from);
    }
  }

  lemma OpenedFrom(env: Env, st: ReplayState, item: Observation, how: Admission, from: set<Observation>)
    requires item.fiveHour.None? && !how.Split? && item in from && FreshPins(env, from)
    ensures exists o :: o in from && FreshFrom(env.config, env.profile, Open(env, st, item, how).current.value, o)
  {
    var w := Open(env, st, item, how).current.value;
    if item.at in env.preserved {
      var o :| o in from && o.at == item.at
               && env.preserved[item.at] == Pinned(item.at + env.config.duration, env.profile(o));
      assert FreshFrom(env.config, env.profile, w, o);
    } else {
      assert FreshFrom(env.config, env.profile, w, item);
    }
  }

  lemma FreshStep(env: Env, st: ReplayState, item: Observation, from: set<Observation>)
    requires item.fiveHour.None? && item in from && FreshPins(env, from)
    requires AllFresh(env.config, env.profile, WindowsOf(st), from)
    ensures AllFresh(env.config, env.profile, WindowsOf(Step(env, st, item)), from)
  {
    WeeklyItemNeverSplits(st, item);
    var verdict := Judge(st, item);
    if verdict.Admit? {
      OpenedFrom(env, st, item, verdict.how, from);
    }
    forall w | w in WindowsOf(Step(env, st, item))
      ensures exists o :: o in from && FreshFrom(env.config, env.profile, w, o)
    {
      if w !in WindowsOf(st) && !verdict.Admit? {
        assert st.current.value in WindowsOf(st);
        var o :| o in from && FreshFrom(env.config, env.profile, st.current.value, o);
        assert FreshFrom(env.config, env.profile, w, o);
      }
    }
  }

  /** A weekly-only table replayed without pins. */
  function CanonicalWindows(cfg: Config, profile: Profile, snapshots: seq<Observation>): seq<ReplayWindow> {
    WindowsOf(Run(Env(cfg, profile, map[]), ReplayItems(snapshots)))
  }

  ghost predicate FreshRows(cfg: Config, profile: Profile, rows: seq<WindowRow>, from: set<Observation>) {
    forall row :: row in rows ==> exists o :: o in from && FreshFrom(cfg, profile, row.window, o)
  }

  lemma {:induction false} FreshRowsPinFreshly(cfg: Config, profile: Profile, rows: seq<WindowRow>, from: set<Observation>)
    requires FreshRows(cfg, profile, rows, from)
    ensures FreshPins(Env(cfg, profile, PreservedOf(rows)), from)
  {
    PinsComeFromRows(rows);
    var preserved := PreservedOf(rows);
    forall t | t in preserved
      ensures exists o :: o in from && o.at == t && preserved[t] == Pinned(t + cfg.duration, profile(o))
    {
      var row :| row in rows && row.window.start == t && preserved[t] == PinnedBy(row);
      var o :| o in from && FreshFrom(cfg, profile, row.window, o);
      assert o.at == t;
    }
  }

  lemma OrderedWindowsAreDistinct(ws: seq<ReplayWindow>)
    requires InOrder(ws) && AllSane(ws) && (forall w :: w in ws ==> w.start < w.end)
    ensures DistinctStarts(ws)
  {
    forall i, j | 0 <= i < j < |ws| ensures ws[i].start != ws[j].start {
      assert ws[i] in ws;
      InOrderDisjoint(ws, i, j);
    }
  }

  /** Fresh windows of a weekly-only replay have distinct starts. */
  lemma {:induction false} FreshIsDistinct(env: Env, items: seq<Observation>, from: set<Observation>)
    requires Weekly(items) && InTime(items) && Elements(items) <= from && FreshPins(env, from)
    ensures DistinctStarts(WindowsOf(Run(env, items)))
  {
    forall t | t in env.preserved ensures t <= env.preserved[t].end {
      var o :| o in from && o.at == t && env.preserved[t] == Pinned(t + env.config.duration, env.profile(o));
    }
    WeeklyOnlyInOrder(env, items);
    WindowsAreFresh(env, items, from);
    RunIsSane(env, items);
    OrderedWindowsAreDistinct(WindowsOf(Run(env, items)));
  }

  /** What ingests keep when nothing is reset by hand, whatever calibrations they pin on the way. */
  ghost predicate Fresh(cfg: Config, profile: Profile, db: Db, ingested: set<Observation>) {
    && DistinctIds(db.snapshots)
    && Elements(db.snapshots) == ingested
    && db.resets == []
    && FreshRows(cfg, profile, db.windows, ingested)
  }

  lemma ItemsAreWeekly(snapshots: seq<Observation>, all: set<Observation>)
    requires Elements(snapshots) <= all && WeeklyRows(all)
    ensures Weekly(ReplayItems(snapshots)) && InTime(ReplayItems(snapshots))
    ensures Elements(ReplayItems(snapshots)) == Elements(snapshots)
    ensures Backfilled(ReplayItems(snapshots)) == ReplayItems(snapshots)
  {
    ItemsAreRows(snapshots);
    var items := ReplayItems(snapshots);
    forall i | 0 <= i < |items| ensures items[i].fiveHour.None? && items[i].weekly.Some? {
      assert items[i] in Elements(snapshots);
    }
    Backfill.BackfillWeeklyOnly(items);
  }

  function RowsAfter(db: Db, batch: seq<Observation>): seq<Observation> {
    InsertAll(db.snapshots, Sort(batch, AtMost))
  }

  lemma RowsAfterAre(db: Db, batch: seq<Observation>)
    requires DistinctIds(db.snapshots) && OneRowPerId(Elements(db.snapshots) + Elements(batch))
    ensures DistinctIds(RowsAfter(db, batch))
    ensures Elements(RowsAfter(db, batch)) == Elements(db.snapshots) + Elements(batch)
  {
    ItemsAreRows(batch);
    assert Elements(Sort(batch, AtMost)) == Elements(batch);
    InsertAllElements(db.snapshots, Sort(batch, AtMost));
  }

  /** One more batch always succeeds, and keeps every row the fresh window of some reading of its start. */
  lemma {:induction false} IngestStaysFresh(cfg: Config, profile: Profile, db: Db, ingested: set<Observation>, batch: seq<Observation>)
    requires Fresh(cfg, profile, db, ingested) && WeeklyRows(ingested + Elements(batch))
    ensures var r := IngestStep(cfg, profile, db, batch);
            && r.Success? && Fresh(cfg, profile, r.value, ingested + Elements(batch))
            && r.value.snapshots == RowsAfter(db, batch)
            && r.value.windows
               == RowsFor(WindowsOf(Run(Env(cfg, profile, PreservedOf(db.windows)), ReplayItems(RowsAfter(db, batch)))), None)
  {
    var all, snapshots := ingested + Elements(batch), RowsAfter(db, batch);
    var env, items := Env(cfg, profile, PreservedOf(db.windows)), ReplayItems(RowsAfter(db, batch));
    RowsAfterAre(db, batch);
    ItemsAreWeekly(snapshots, all);
    assert FreshRows(cfg, profile, db.windows, all);
    FreshRowsPinFreshly(cfg, profile, db.windows, all);
    FreshIsDistinct(env, items, all);
    WindowsAreFresh(env, items, all);
    var r := IngestStep(cfg, profile, db, batch);
    forall row | row in r.value.windows ensures exists o :: o in all && FreshFrom(cfg, profile, row.window, o) {
      assert row.window in WindowsOf(Run(env, items));
    }
  }

  // ----- The exact condition -----

  /**
    Every window of one replay of everything starts at an instant all of whose
    readings select that window's calibration.
  */
  ghost predicate OneCalibrationPerStart(cfg: Config, profile: Profile, snapshots: seq<Observation>) {
    forall w, o :: w in CanonicalWindows(cfg, profile, snapshots) && o in snapshots && o.at == w.start ==>
      profile(o) == w.calibration
  }

  lemma PinsAgreeWithStarts(cfg: Config, profile: Profile, preserved: map<Time, Pinned>, snapshots: seq<Observation>)
    requires FreshPins(Env(cfg, profile, preserved), Elements(snapshots))
    requires OneCalibrationPerStart(cfg, profile, snapshots)
    ensures PinnedAs(Env(cfg, profile, preserved), CanonicalWindows(cfg, profile, snapshots))
  {
    forall w | w in CanonicalWindows(cfg, profile, snapshots) && w.start in preserved
      ensures preserved[w.start] == Pinned(w.start + cfg.duration, w.calibration)
    {
      var o :| o in Elements(snapshots) && o.at == w.start
               && preserved[w.start] == Pinned(w.start + cfg.duration, profile(o));
      assert o in snapshots;
    }
  }

  /** Under it one more batch leaves the table exactly where a single replay would, however the pins came about. */
  lemma IngestSettles(cfg: Config, profile: Profile, db: Db, ingested: set<Observation>, batch: seq<Observation>)
    requires Fresh(cfg, profile, db, ingested) && WeeklyRows(ingested + Elements(batch))
    requires OneCalibrationPerStart(cfg, profile, RowsAfter(db, batch))
    ensures var r := IngestStep(cfg, profile, db, batch);
            && r.Success?
            && r.value.windows == RowsFor(CanonicalWindows(cfg, profile, RowsAfter(db, batch)), None)
  {
    var all, snapshots := ingested + Elements(batch), RowsAfter(db, batch);
    IngestStaysFresh(cfg, profile, db, ingested, batch);
    RowsAfterAre(db, batch);
    ItemsAreWeekly(snapshots, all);
    assert FreshRows(cfg, profile, db.windows, all);
    FreshRowsPinFreshly(cfg, profile, db.windows, all);
    PinsAgreeWithStarts(cfg, profile, PreservedOf(db.windows), snapshots);
    PreservedIsIrrelevant(Env(cfg, profile, PreservedOf(db.windows)), ReplayItems(snapshots));
  }

  // ----- Runs of batches -----

  function IngestAll(cfg: Config, profile: Profile, batches: seq<seq<Observation>>): Result<Db, StoreError> {
    if batches == [] then Success(EMPTY_DB)
    else
      match IngestAll(cfg, profile, batches[..|batches| - 1])
      case Failure(e) => Failure(e)
      case Success(db) => IngestStep(cfg, profile, db, batches[|batches| - 1])
  }

  function Ingested(batches: seq<seq<Observation>>): set<Observation> {
    if batches == [] then {} else Ingested(batches[..|batches| - 1]) + Elements(batches[|batches| - 1])
  }

  lemma {:induction false} IngestAllStaysFresh(cfg: Config, profile: Profile, batches: seq<seq<Observation>>)
    requires WeeklyRows(Ingested(batches))
    ensures var r := IngestAll(cfg, profile, batches);
            r.Success? && Fresh(cfg, profile, r.value, Ingested(batches))
  {
    if batches == [] {
      assert Elements(EMPTY_DB.snapshots) == {};
    } else {
      var prefix := batches[..|batches| - 1];
      IngestAllStaysFresh(cfg, profile, prefix);
      IngestStaysFresh(cfg, profile, IngestAll(cfg, profile, prefix).value, Ingested(prefix), batches[|batches| - 1]);
    }
  }

  /** The rows of everything, inserted at once. */
  function Whole(all: seq<Observation>): seq<Observation> {
    RowsAfter(EMPTY_DB, all)
  }

  lemma WholeRows(all: seq<Observation>)
    requires OneRowPerId(Elements(all))
    ensures DistinctIds(Whole(all)) && Elements(Whole(all)) == Elements(all)
  {
    assert Elements([]) + Elements(all) == Elements(all);
    RowsAfterAre(EMPTY_DB, all);
  }

  lemma NoRows(s: seq<Observation>)
    ensures Elements(s) == {} ==> s == []
  {
    assert s != [] ==> s[0] in Elements(s);
  }

  /** The run succeeds and ends with the windows table of one replay of everything. */
  ghost predicate EndsAsOneReplay(cfg: Config, profile: Profile, all: seq<Observation>, batches: seq<seq<Observation>>) {
    && IngestAll(cfg, profile, batches).Success?
    && IngestAll(cfg, profile, batches).value.windows == RowsFor(CanonicalWindows(cfg, profile, Whole(all)), None)
  }

  lemma ConditionDependsOnRows(cfg: Config, profile: Profile, a: seq<Observation>, b: seq<Observation>)
    requires DistinctIds(a) && DistinctIds(b) && Elements(a) == Elements(b)
    ensures CanonicalWindows(cfg, profile, a) == CanonicalWindows(cfg, profile, b)
    ensures OneCalibrationPerStart(cfg, profile, a) ==> OneCalibrationPerStart(cfg, profile, b)
  {
    ItemsDependOnRows(a, b);
    forall w, o | OneCalibrationPerStart(cfg, profile, a) && w in CanonicalWindows(cfg, profile, b) && o in b && o.at == w.start
      ensures profile(o) == w.calibration
    {
      assert o in Elements(b) && o in Elements(a) && o in a;
    }
  }

  /** Any way of ingesting the same snapshots, in any batches, any order and with any duplicates, ends with that table. */
  lemma {:induction false} OneReplayIsEnough(cfg: Config, profile: Profile, all: seq<Observation>, batches: seq<seq<Observation>>)
    requires WeeklyRows(Elements(all)) && Ingested(batches) == Elements(all)
    requires OneCalibrationPerStart(cfg, profile, Whole(all))
    ensures EndsAsOneReplay(cfg, profile, all, batches)
  {
    WholeRows(all);
    IngestAllStaysFresh(cfg, profile, batches);
    if batches == [] {
      NoRows(Whole(all));
      assert RowsFor([], None) == [];
    } else {
      var prefix, last := batches[..|batches| - 1], batches[|batches| - 1];
      IngestAllStaysFresh(cfg, profile, prefix);
      var db := IngestAll(cfg, profile, prefix).value;
      RowsAfterAre(db, last);
      ConditionDependsOnRows(cfg, profile, Whole(all), RowsAfter(db, last));
      IngestSettles(cfg, profile, db, Ingested(prefix), last);
    }
  }

  /** Two ways of ingesting the same snapshots end with the same windows table. */
  lemma {:induction false} BatchingIsIrrelevant(cfg: Config, profile: Profile, all: seq<Observation>, a: seq<seq<Observation>>, b: seq<seq<Observation>>)
    requires WeeklyRows(Elements(all)) && Ingested(a) == Ingested(b) == Elements(all)
    requires OneCalibrationPerStart(cfg, profile, Whole(all))
    ensures IngestAll(cfg, profile, a).Success? && IngestAll(cfg, profile, b).Success?
    ensures IngestAll(cfg, profile, a).value.windows == IngestAll(cfg, profile, b).value.windows
  {
    OneReplayIsEnough(cfg, profile, all, a);
    OneReplayIsEnough(cfg, profile, all, b);
  }

  // ----- Where batching shows -----

  lemma {:induction false} TwoBatches(cfg: Config, profile: Profile, x: seq<Observation>, y: seq<Observation>)
    ensures Ingested([x, y]) == Elements(x) + Elements(y)
    ensures IngestAll(cfg, profile, [x]) == IngestStep(cfg, profile, EMPTY_DB, x)
    ensures IngestStep(cfg, profile, EMPTY_DB, x).Success? ==>
              IngestAll(cfg, profile, [x, y]) == IngestStep(cfg, profile, IngestStep(cfg, profile, EMPTY_DB, x).value, y)
  {
    assert [x, y][..1] == [x] && [x][..0] == [];
    assert Ingested([x]) == Elements(x);
  }

  lemma LoneRow(o: Observation)
    ensures RowsAfter(EMPTY_DB, [o]) == [o] && ReplayItems([o]) == [o]
  {
    SortIdentity([o], AtMost);
    assert [o][..0] == [] && InsertAll([], []) == [] && !HasId([], o.id);
    assert InsertAll([], [o]) == InsertOrIgnore([], o);
  }

  lemma LonePreserved(row: WindowRow)
    ensures PreservedOf([row]) == map[row.window.start := PinnedBy(row)]
  {
    assert [row][..0] == [];
  }

  lemma {:induction false} LoneWindow(env: Env, o: Observation)
    requires o.fiveHour.None? && env.preserved == map[]
    ensures var ws := WindowsOf(Run(env, [o]));
            |ws| == 1 && FreshFrom(env.config, env.profile, ws[0], o)
  {
    assert [o][..0] == [];
    assert Run(env, [o]) == Open(env, START, o, Opening);
    OpenedFresh(env, START, o, Opening);
  }

  lemma {:induction false} LoneIngest(cfg: Config, profile: Profile, o: Observation)
    requires o.fiveHour.None? && o.weekly.Some?
    ensures var r := IngestStep(cfg, profile, EMPTY_DB, [o]);
            && r.Success? && r.value.snapshots == [o] && Fresh(cfg, profile, r.value, {o})
            && r.value.windows == RowsFor(WindowsOf(Run(Env(cfg, profile, map[]), [o])), None)
  {
    assert Elements(EMPTY_DB.snapshots) == {} && {} + Elements([o]) == {o};
    IngestStaysFresh(cfg, profile, EMPTY_DB, {}, [o]);
    LoneRow(o);
  }

  lemma LoneRowPin(cfg: Config, profile: Profile, ws: seq<ReplayWindow>, o: Observation)
    requires |ws| == 1 && FreshFrom(cfg, profile, ws[0], o)
    ensures PreservedOf(RowsFor(ws, None)) == map[o.at := Pinned(o.at + cfg.duration, profile(o))]
  {
    var rows := RowsFor(ws, None);
    assert rows == [rows[0]];
    LonePreserved(rows[0]);
  }

  /** A reading ingested alone pins its own calibration at its instant. */
  lemma LonePin(cfg: Config, profile: Profile, o: Observation)
    requires o.fiveHour.None? && o.weekly.Some?
    ensures var r := IngestStep(cfg, profile, EMPTY_DB, [o]);
            && r.Success? && r.value.snapshots == [o] && Fresh(cfg, profile, r.value, {o})
            && PreservedOf(r.value.windows) == map[o.at := Pinned(o.at + cfg.duration, profile(o))]
  {
    var env := Env(cfg, profile, map[]);
    LoneIngest(cfg, profile, o);
    LoneWindow(env, o);
    LoneRowPin(cfg, profile, WindowsOf(Run(env, [o])), o);
  }

  /** A reading at the start of a window that selects another calibration shows if it arrives first. */
  lemma EarlyReadingShows(cfg: Config, profile: Profile, all: seq<Observation>, w: ReplayWindow, o: Observation)
    requires WeeklyRows(Elements(all)) && o in all
    requires w in CanonicalWindows(cfg, profile, Whole(all)) && o.at == w.start && profile(o) != w.calibration
    ensures Ingested([[o], all]) == Elements(all) && !EndsAsOneReplay(cfg, profile, all, [[o], all])
  {
    TwoBatches(cfg, profile, [o], all);
    assert o in Elements(all);
    assert Elements([o]) == {o} && {o} + Elements(all) == Elements(all);
    LonePin(cfg, profile, o);
    WholeRows(all);
    var db := IngestStep(cfg, profile, EMPTY_DB, [o]).value;
    IngestStaysFresh(cfg, profile, db, {o}, all);
    RowsAfterAre(db, all);
    ItemsDependOnRows(RowsAfter(db, all), Whole(all));
    var env, items := Env(cfg, profile, PreservedOf(db.windows)), ReplayItems(Whole(all));
    PinnedCalibration(env, items);
    var ws, canonical := WindowsOf(Run(env, items)), CanonicalWindows(cfg, profile, Whole(all));
    assert w !in ws;
    RowsNameWindows(ws, canonical);
  }

  lemma RowsNameWindows(a: seq<ReplayWindow>, b: seq<ReplayWindow>)
    ensures RowsFor(a, None) == RowsFor(b, None) ==> a == b
  {
    assert forall i :: 0 <= i < |a| ==> RowsFor(a, None)[i].window == a[i];
    assert forall i :: 0 <= i < |b| ==> RowsFor(b, None)[i].window == b[i];
  }

  /**
    The table does not depend on how the snapshots were batched, ordered and
    repeated exactly when every window of one replay of everything starts at an
    instant all of whose readings select its calibration.
  */
  lemma {:induction false} BatchingIsIrrelevantExactly(cfg: Config, profile: Profile, all: seq<Observation>)
    requires WeeklyRows(Elements(all))
    ensures (forall batches :: Ingested(batches) == Elements(all) ==> EndsAsOneReplay(cfg, profile, all, batches))
            <==> OneCalibrationPerStart(cfg, profile, Whole(all))
  {
    WholeRows(all);
    if OneCalibrationPerStart(cfg, profile, Whole(all)) {
      forall batches | Ingested(batches) == Elements(all) ensures EndsAsOneReplay(cfg, profile, all, batches) {
        OneReplayIsEnough(cfg, profile, all, batches);
      }
    } else {
      var w, o :| w in CanonicalWindows(cfg, profile, Whole(all)) && o in Whole(all) && o.at == w.start
                  && profile(o) != w.calibration;
      assert o in Elements(Whole(all)) && o in all;
      EarlyReadingShows(cfg, profile, all, w, o);
    }
  }
}
