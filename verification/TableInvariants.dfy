/**
  What the windows table keeps over every interleaving of ingests and manual
  resets, and when a transaction can fail.
*/
module TableInvariants {
  import opened Options
  import opened UsageModel
  import opened Sorting
  import opened WindowReplay
  import opened ReplayInvariants
  import opened StateStore
  import opened SnapshotTable
  import opened TableGrowth
  import opened Batching
  import Backfill

  /** The calibration profiles in force may differ from one ingest to the next. */
  datatype Op = Ingest(profile: Profile, batch: seq<Observation>) | Reset(now: Time)

  /** A failed ingest is rolled back. */
  function RunOp(cfg: Config, db: Db, op: Op): Db {
    match op
    case Reset(now) => ResetStep(db, now)
    case Ingest(profile, batch) =>
      match IngestStep(cfg, profile, db, batch)
      case Success(after) => after
      case Failure(_) => db
  }

  function RunOps(cfg: Config, ops: seq<Op>): Db {
    if ops == [] then EMPTY_DB else RunOp(cfg, RunOps(cfg, ops[..|ops| - 1]), ops[|ops| - 1])
  }

  function WindowsIn(rows: seq<WindowRow>): (ws: seq<ReplayWindow>)
    ensures |ws| == |rows|
    ensures forall i :: 0 <= i < |rows| ==> ws[i] == rows[i].window
  {
    seq(|rows|, i requires 0 <= i < |rows| => rows[i].window)
  }

  ghost predicate OnlyLastIsCurrent(rows: seq<WindowRow>) {
    forall i :: 0 <= i < |rows| && rows[i].isCurrent ==> i == |rows| - 1
  }

  /** The current window was observed after every manual reset on record. */
  ghost predicate CurrentPostdatesResets(db: Db) {
    forall row, t :: row in db.windows && row.isCurrent && t in db.resets ==> t < row.window.latestAt
  }

  ghost predicate TableInvariant(db: Db) {
    && AllSane(WindowsIn(db.windows))
    && DistinctStarts(WindowsIn(db.windows))
    && OnlyLastIsCurrent(db.windows)
    && CurrentPostdatesResets(db)
    && DistinctIds(db.snapshots)
  }

  ghost predicate LoadedTable(db: Db) {
    forall o :: o in db.snapshots ==> o.weekly.Some?
  }

  lemma {:induction false} LatestResetIsLatest(resets: seq<Time>)
    ensures forall t :: t in resets ==> LatestReset(resets).Some? && t <= LatestReset(resets).value
    ensures resets != [] ==> LatestReset(resets).Some? && LatestReset(resets).value in resets
  {
    if resets == [] {
    } else {
      LatestResetIsLatest(resets[1..]);
      assert resets == [resets[0]] + resets[1..];
    }
  }

  lemma RowsKeepWindows(ws: seq<ReplayWindow>, latestReset: Option<Time>)
    ensures WindowsIn(RowsFor(ws, latestReset)) == ws
  {
  }

  lemma {:induction false} SaneTablePinsSanely(rows: seq<WindowRow>)
    requires AllSane(WindowsIn(rows))
    ensures SanePreserved(PreservedOf(rows))
  {
    PinsComeFromRows(rows);
    forall t | t in PreservedOf(rows) ensures t <= PreservedOf(rows)[t].end {
      var row :| row in rows && row.window.start == t && PreservedOf(rows)[t] == PinnedBy(row);
      var i :| 0 <= i < |rows| && rows[i] == row;
      assert Sane(WindowsIn(rows)[i]);
    }
  }

  lemma IngestKeepsTable(cfg: Config, profile: Profile, db: Db, batch: seq<Observation>)
    requires TableInvariant(db)
    ensures var r := IngestStep(cfg, profile, db, batch);
            r.Success? ==> TableInvariant(r.value)
  {
    var r := IngestStep(cfg, profile, db, batch);
    if r.Success? {
      InsertAllElements(db.snapshots, Sort(batch, AtMost));
      var snapshots := r.value.snapshots;
      var ws := RebuiltWindows(cfg, profile, snapshots, db.windows);
      SaneTablePinsSanely(db.windows);
      RunIsSane(Env(cfg, profile, PreservedOf(db.windows)), Backfilled(ReplayItems(snapshots)));
      RowsKeepWindows(ws, LatestReset(db.resets));
      LatestResetIsLatest(db.resets);
    }
  }

  lemma ResetKeepsTable(db: Db, now: Time)
    requires TableInvariant(db)
    ensures TableInvariant(ResetStep(db, now))
    ensures HasCurrent(db.windows) ==> !HasCurrent(ResetStep(db, now).windows)
  {
    var after := ResetStep(db, now);
    forall i | 0 <= i < |db.windows| ensures Sane(WindowsIn(after.windows)[i]) {
      assert Sane(WindowsIn(db.windows)[i]);
    }
    assert forall i :: 0 <= i < |db.windows| ==> WindowsIn(after.windows)[i].start == WindowsIn(db.windows)[i].start;
  }

  /** Every interleaving of ingests and manual resets keeps the table invariant. */
  lemma {:induction false} EveryInterleavingKeepsTable(cfg: Config, ops: seq<Op>)
    ensures TableInvariant(RunOps(cfg, ops))
  {
    if ops == [] {
    } else {
      var db := RunOps(cfg, ops[..|ops| - 1]);
      EveryInterleavingKeepsTable(cfg, ops[..|ops| - 1]);
      match ops[|ops| - 1] {
        case Reset(now) => ResetKeepsTable(db, now);
        case Ingest(profile, batch) => IngestKeepsTable(cfg, profile, db, batch);
      }
    }
  }

  // ----- Disjointness -----

  lemma BackfilledInTime(items: seq<Observation>)
    requires InTime(items) && Loaded(items)
    ensures InTime(Backfilled(items)) && Loaded(Backfilled(items))
  {
    var r := Backfilled(items);
    forall i | 0 <= i < |items| ensures r[i].at == items[i].at && r[i].weekly == items[i].weekly {
      Backfill.BackfillKeepsTheRest(items, i);
    }
  }

  /**
    After any ingest, of paired or weekly-only data, the windows are in order
    exactly when every server split of the replay fits; in order, they are disjoint.
  */
  lemma IngestOrderedExactly(cfg: Config, profile: Profile, db: Db, batch: seq<Observation>)
    requires TableInvariant(db)
    requires IngestStep(cfg, profile, db, batch).Success?
    requires LoadedTable(IngestStep(cfg, profile, db, batch).value)
    ensures var after := IngestStep(cfg, profile, db, batch).value;
            InOrder(WindowsIn(after.windows)) <==>
            AllSplitsFit(Env(cfg, profile, PreservedOf(db.windows)), Backfilled(ReplayItems(after.snapshots)))
  {
    var after := IngestStep(cfg, profile, db, batch).value;
    var items := ReplayItems(after.snapshots);
    ItemsAreRows(after.snapshots);
    BackfilledInTime(items);
    SaneTablePinsSanely(db.windows);
    RowsKeepWindows(RebuiltWindows(cfg, profile, after.snapshots, db.windows), LatestReset(db.resets));
    OrderedExactlyWhenSplitsFit(Env(cfg, profile, PreservedOf(db.windows)), Backfilled(items));
  }

  ghost predicate WeeklyOnlyTable(db: Db) {
    forall o :: o in db.snapshots ==> o.fiveHour.None? && o.weekly.Some?
  }

  ghost predicate WeeklyOnlyOps(ops: seq<Op>) {
    forall op :: op in ops && op.Ingest? ==> forall o :: o in op.batch ==> o.fiveHour.None? && o.weekly.Some?
  }

  lemma WeeklyReplay(cfg: Config, profile: Profile, db: Db, snapshots: seq<Observation>)
    requires TableInvariant(db)
    requires forall o :: o in snapshots ==> o.fiveHour.None? && o.weekly.Some?
    ensures InOrder(RebuiltWindows(cfg, profile, snapshots, db.windows))
    ensures AllSane(RebuiltWindows(cfg, profile, snapshots, db.windows))
  {
    var items := ReplayItems(snapshots);
    ItemsAreRows(snapshots);
    Backfill.BackfillWeeklyOnly(items);
    SaneTablePinsSanely(db.windows);
    WeeklyOnlyInOrder(Env(cfg, profile, PreservedOf(db.windows)), items);
    RunIsSane(Env(cfg, profile, PreservedOf(db.windows)), items);
  }

  lemma {:induction false} WeeklyInsert(db: Db, batch: seq<Observation>)
    requires DistinctIds(db.snapshots) && WeeklyOnlyTable(db)
    requires forall o :: o in batch ==> o.fiveHour.None? && o.weekly.Some?
    ensures forall o :: o in InsertAll(db.snapshots, Sort(batch, AtMost)) ==> o.fiveHour.None? && o.weekly.Some?
  {
    var sorted := Sort(batch, AtMost);
    ItemsAreRows(batch);
    InsertAllElements(db.snapshots, sorted);
    forall o | o in InsertAll(db.snapshots, sorted) ensures o.fiveHour.None? && o.weekly.Some? {
      assert o in Elements(InsertAll(db.snapshots, sorted));
      assert o in Elements(db.snapshots) || o in Elements(sorted);
    }
  }

  lemma ResetKeepsOrder(db: Db, now: Time)
    requires TableInvariant(db) && InOrder(WindowsIn(db.windows))
    ensures InOrder(WindowsIn(ResetStep(db, now).windows))
  {
    var was, after := WindowsIn(db.windows), WindowsIn(ResetStep(db, now).windows);
    forall i | 0 < i < |after| ensures after[i - 1].end <= after[i].start {
      assert was[i - 1].end <= was[i].start;
    }
  }

  /** Weekly-only windows stay pairwise disjoint over every interleaving. */
  lemma {:induction false} WeeklyWindowsStayDisjoint(cfg: Config, ops: seq<Op>)
    requires WeeklyOnlyOps(ops)
    ensures var db := RunOps(cfg, ops);
            && WeeklyOnlyTable(db)
            && InOrder(WindowsIn(db.windows))
            && (forall i, j :: 0 <= i < j < |db.windows| ==> db.windows[i].window.end <= db.windows[j].window.start)
  {
    if ops == [] {
    } else {
      var prefix, op := ops[..|ops| - 1], ops[|ops| - 1];
      var before := RunOps(cfg, prefix);
      WeeklyWindowsStayDisjoint(cfg, prefix);
      EveryInterleavingKeepsTable(cfg, prefix);
      match op {
        case Reset(now) => ResetKeepsOrder(before, now);
        case Ingest(profile, batch) =>
          assert op in ops;
          WeeklyInsert(before, batch);
          var snapshots := InsertAll(before.snapshots, Sort(batch, AtMost));
          WeeklyReplay(cfg, profile, before, snapshots);
          RowsKeepWindows(RebuiltWindows(cfg, profile, snapshots, before.windows), LatestReset(before.resets));
      }
    }
    EveryInterleavingKeepsTable(cfg, ops);
    var ws := WindowsIn(RunOps(cfg, ops).windows);
    forall i, j | 0 <= i < j < |ws| ensures ws[i].end <= ws[j].start {
      InOrderDisjoint(ws, i, j);
    }
  }

  // ----- When a transaction fails -----

  ghost predicate PositivePins(rows: seq<WindowRow>) {
    forall row :: row in rows ==> row.window.start < row.window.end
  }

  lemma {:induction false} RunIsPositive(env: Env, items: seq<Observation>)
    requires NoFiveHour(items)
    requires forall t :: t in env.preserved ==> t < env.preserved[t].end
    ensures forall w :: w in WindowsOf(Run(env, items)) ==> w.start < w.end
  {
    if items == [] {
    } else {
      var st, item := Run(env, items[..|items| - 1]), items[|items| - 1];
      RunIsPositive(env, items[..|items| - 1]);
      WeeklyItemNeverSplits(st, item);
      if st.current.Some? {
        assert st.current.value in WindowsOf(st);
      }
      assert forall w :: w in st.windows ==> w in WindowsOf(st);
    }
  }

  /** A weekly-only ingest can fail only over a table with a window of no length. */
  lemma WeeklyIngestSucceeds(cfg: Config, profile: Profile, db: Db, batch: seq<Observation>)
    requires TableInvariant(db) && WeeklyOnlyTable(db) && PositivePins(db.windows)
    requires forall o :: o in batch ==> o.fiveHour.None? && o.weekly.Some?
    ensures IngestStep(cfg, profile, db, batch).Success?
  {
    WeeklyInsert(db, batch);
    var snapshots := InsertAll(db.snapshots, Sort(batch, AtMost));
    var items := ReplayItems(snapshots);
    var env := Env(cfg, profile, PreservedOf(db.windows));
    WeeklyReplay(cfg, profile, db, snapshots);
    ItemsAreRows(snapshots);
    Backfill.BackfillWeeklyOnly(items);
    PinsComeFromRows(db.windows);
    RunIsPositive(env, items);
    OrderedWindowsAreDistinct(RebuiltWindows(cfg, profile, snapshots, db.windows));
  }
}
