/**
  The persistent store (`src/persistence.rs`): a snapshots table, the windows
  table rebuilt from it, and the log of manual resets.  Each operation is one
  transaction; a constraint violation rolls it back.
*/
module StateStore {
  import opened Options
  import opened UsageModel
  import opened WindowReplay
  import opened Sorting

  datatype WindowRow = WindowRow(window: ReplayWindow, isCurrent: bool)

  datatype Db = Db(snapshots: seq<Observation>, windows: seq<WindowRow>, resets: seq<Time>)

  const EMPTY_DB: Db := Db([], [], [])

  /** `windows.started_at` is a primary key. */
  datatype StoreError = DuplicateWindowStart

  type Profile = Observation -> Calibration

  predicate HasId(table: seq<Observation>, id: ObservationId) {
    exists i :: 0 <= i < |table| && table[i].id == id
  }

  /** `INSERT OR IGNORE` on the unique (source, offset) pair. */
  function InsertOrIgnore(table: seq<Observation>, row: Observation): seq<Observation> {
    if HasId(table, row.id) then table else table + [row]
  }

  function InsertAll(table: seq<Observation>, batch: seq<Observation>): seq<Observation> {
    if batch == [] then table
    else InsertOrIgnore(InsertAll(table, batch[..|batch| - 1]), batch[|batch| - 1])
  }

  function PinnedBy(row: WindowRow): Pinned {
    Pinned(row.window.end, row.window.calibration)
  }

  /** `load_preserved_windows`. */
  function PreservedOf(rows: seq<WindowRow>): map<Time, Pinned> {
    if rows == [] then map[]
    else PreservedOf(rows[..|rows| - 1])[rows[|rows| - 1].window.start := PinnedBy(rows[|rows| - 1])]
  }

  function LatestReset(resets: seq<Time>): Option<Time> {
    if resets == [] then None
    else
      match LatestReset(resets[1..])
      case None => Some(resets[0])
      case Some(t) => Some(MaxTime(t, resets[0]))
  }

  predicate DistinctStarts(ws: seq<ReplayWindow>) {
    forall i, j :: 0 <= i < j < |ws| ==> ws[i].start != ws[j].start
  }

  /** Only the last window can be current, and only if it was observed after every manual reset. */
  predicate IsCurrent(ws: seq<ReplayWindow>, i: nat, latestReset: Option<Time>)
    requires i < |ws|
  {
    i == |ws| - 1 && (latestReset.None? || ws[i].latestAt > latestReset.value)
  }

  function RowsFor(ws: seq<ReplayWindow>, latestReset: Option<Time>): (rows: seq<WindowRow>)
    ensures |rows| == |ws|
    ensures forall i :: 0 <= i < |ws| ==> rows[i] == WindowRow(ws[i], IsCurrent(ws, i, latestReset))
  {
    seq(|ws|, i requires 0 <= i < |ws| => WindowRow(ws[i], IsCurrent(ws, i, latestReset)))
  }

  /** The items of one replay: every stored snapshot, `ORDER BY observed_at, source_file, byte_offset`. */
  function ReplayItems(snapshots: seq<Observation>): seq<Observation> {
    Sort(snapshots, AtMost)
  }

  function RebuiltWindows(cfg: Config, profile: Profile, snapshots: seq<Observation>, rows: seq<WindowRow>): seq<ReplayWindow> {
    Rebuilt(Env(cfg, profile, PreservedOf(rows)), ReplayItems(snapshots))
  }

  /** `StateStore::ingest` as one transaction. */
  function IngestStep(cfg: Config, profile: Profile, db: Db, batch: seq<Observation>): Result<Db, StoreError> {
    var snapshots := InsertAll(db.snapshots, Sort(batch, AtMost));
    var ws := RebuiltWindows(cfg, profile, snapshots, db.windows);
    if DistinctStarts(ws)
    then Success(Db(snapshots, RowsFor(ws, LatestReset(db.resets)), db.resets))
    else Failure(DuplicateWindowStart)
  }

  predicate HasCurrent(rows: seq<WindowRow>) {
    exists i :: 0 <= i < |rows| && rows[i].isCurrent
  }

  /** The current window shortened to `now`, but never to before its start, and archived. */
  function Shortened(row: WindowRow, now: Time): WindowRow {
    if row.isCurrent
    then WindowRow(row.window.(end := MaxTime(now, row.window.start)), false) else row
  }

  /** `StateStore::reset_current_window` as one transaction. */
  function ResetStep(db: Db, now: Time): Db {
    if HasCurrent(db.windows)
    then Db(db.snapshots, seq(|db.windows|, i requires 0 <= i < |db.windows| => Shortened(db.windows[i], now)), db.resets + [now])
    else db
  }

  /**
    What a manual reset changes, row by row: the current window ends at `now`, or
    where it starts if that is later, and is archived; all else stays.
  */
  ghost predicate EndedAt(before: seq<WindowRow>, after: seq<WindowRow>, now: Time) {
    && |after| == |before|
    && forall i :: 0 <= i < |before| ==>
         if before[i].isCurrent then
           && !after[i].isCurrent
           && after[i].window == before[i].window.(end := after[i].window.end)
           && (before[i].window.start <= now ==> after[i].window.end == now)
           && (now <= before[i].window.start ==> after[i].window.end == before[i].window.start)
         else after[i] == before[i]
  }

  class StateStore {
    const config: Config
    var snapshots: seq<Observation>
    var windows: seq<WindowRow>
    var resets: seq<Time>

    function Contents(): Db
      reads this
    {
      Db(snapshots, windows, resets)
    }

    constructor (config: Config)
      ensures this.config == config && Contents() == EMPTY_DB
    {
      this.config := config;
      snapshots, windows, resets := [], [], [];
    }

    method InsertSnapshots(batch: seq<Observation>) returns (inserted: nat)
      modifies this`snapshots
      ensures snapshots == InsertAll(old(snapshots), batch)
      ensures inserted == |snapshots| - |old(snapshots)|
    {
      inserted := 0;
      assert batch[..0] == [];
      for i := 0 to |batch|
        invariant snapshots == InsertAll(old(snapshots), batch[..i])
        invariant inserted == |snapshots| - |old(snapshots)|
      {
        assert batch[..i + 1][..i] == batch[..i];
        if !HasId(snapshots, batch[i].id) {
          snapshots := snapshots + [batch[i]];
          inserted := inserted + 1;
        }
      }
      assert batch[..|batch|] == batch;
    }

    method LatestManualReset() returns (latest: Option<Time>)
      ensures latest == LatestReset(resets)
    {
      latest := None;
      var i := |resets|;
      while i > 0
        invariant 0 <= i <= |resets|
        invariant latest == LatestReset(resets[i..])
      {
        i := i - 1;
        assert resets[i..][1..] == resets[i + 1..];
        latest := match latest
          case None => Some(resets[i])
          case Some(t) => Some(MaxTime(t, resets[i]));
      }
      assert resets[0..] == resets;
    }

    /** Inserts the rebuilt rows one by one; a repeated start fails the statement. */
    method InsertRows(ws: seq<ReplayWindow>, latestReset: Option<Time>) returns (r: Result<seq<WindowRow>, StoreError>)
      ensures r == if DistinctStarts(ws) then Success(RowsFor(ws, latestReset)) else Failure(DuplicateWindowStart)
    {
      var rows: seq<WindowRow> := [];
      for i := 0 to |ws|
        invariant |rows| == i
        invariant rows == RowsFor(ws, latestReset)[..i]
        invariant DistinctStarts(ws[..i])
      {
        assert forall k :: 0 <= k < i ==> rows[k].window == ws[k];
        if exists k :: 0 <= k < |rows| && rows[k].window.start == ws[i].start {
          return Failure(DuplicateWindowStart);
        }
        rows := rows + [WindowRow(ws[i], IsCurrent(ws, i, latestReset))];
      }
      assert ws[..|ws|] == ws && RowsFor(ws, latestReset)[..|ws|] == RowsFor(ws, latestReset);
      r := Success(rows);
    }

    /** Replays the snapshots table into a new windows table. */
    method Rebuild(profile: Profile) returns (r: Result<seq<WindowRow>, StoreError>)
      ensures var ws := RebuiltWindows(config, profile, snapshots, windows);
              r == if DistinctStarts(ws) then Success(RowsFor(ws, LatestReset(resets))) else Failure(DuplicateWindowStart)
    {
      var items := ReplayItems(snapshots);
      var observations := new Observation[|items|](i requires 0 <= i < |items| => items[i]);
      assert observations[..] == items;
      var ws := RebuildWindows(Env(config, profile, PreservedOf(windows)), observations);
      var latestReset := LatestManualReset();
      r := InsertRows(ws, latestReset);
    }

    method Ingest(profile: Profile, batch: seq<Observation>) returns (r: Result<nat, StoreError>)
      modifies this`snapshots, this`windows
      ensures match IngestStep(config, profile, old(Contents()), batch)
              case Success(db) => r == Success(|db.snapshots| - |old(snapshots)|) && Contents() == db
              case Failure(e) => r == Failure(e) && Contents() == old(Contents())
    {
      var before := snapshots;
      var inserted := InsertSnapshots(Sort(batch, AtMost));
      ghost var ws := RebuiltWindows(config, profile, snapshots, windows);
      var rows := Rebuild(profile);
      assert rows.Success? <==> DistinctStarts(ws);
      assert IngestStep(config, profile, old(Contents()), batch)
             == if DistinctStarts(ws) then Success(Db(snapshots, RowsFor(ws, LatestReset(resets)), resets))
                else Failure(DuplicateWindowStart);
      match rows {
        case Success(table) =>
          windows := table;
          r := Success(inserted);
        case Failure(e) =>
          snapshots := before;
          r := Failure(e);
      }
    }

    method ResetCurrentWindow(now: Time) returns (done: bool)
      modifies this`windows, this`resets
      ensures Contents() == ResetStep(old(Contents()), now)
      ensures done <==> HasCurrent(old(windows))
      ensures if done then EndedAt(old(windows), windows, now) && resets == old(resets) + [now]
              else windows == old(windows) && resets == old(resets)
    {
      if !HasCurrent(windows) {
        return false;
      }
      var updated: seq<WindowRow> := [];
      for i := 0 to |windows|
        invariant |updated| == i
        invariant forall k :: 0 <= k < i ==> updated[k] == Shortened(windows[k], now)
      {
        updated := updated + [Shortened(windows[i], now)];
      }
      windows := updated;
      resets := resets + [now];
      done := true;
    }
  }
}
