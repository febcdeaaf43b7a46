/**
  Incremental ingestion of one transcript (`src/persistence/transcripts.rs`): a
  saved cursor with a continuity marker and a generation, insert-or-ignore tables
  keyed by generation and byte offset, and in the same transaction the replay of
  all stored snapshots, whose failure rolls everything back.
*/
module Transcripts {
  import opened Options
  import opened LineReader
  import opened TranscriptScan
  import UsageModel
  import WindowReplay
  import S = StateStore
  import T = TableInvariants
  import W = WindowStarts

  // ----- The continuity marker -----

  const SAMPLE: nat := 128

  function LittleEndian(n: nat, width: nat): (bytes: seq<Byte>)
    ensures |bytes| == width
  {
    if width == 0 then [] else [n % 256] + LittleEndian(n / 256, width - 1)
  }

  /** The offset, the start of the consumed prefix and its end; `None` past the end of the file. */
  function Marker(file: File, offset: nat): Option<seq<Byte>> {
    if offset > |file| then None
    else Some(LittleEndian(offset, 8) + file[..Min(offset, SAMPLE)] + file[offset - Min(offset, SAMPLE)..offset])
  }

  method TranscriptContinuityMarker(file: File, offset: nat) returns (r: Option<seq<Byte>>)
    ensures r == Marker(file, offset)
  {
    if offset > |file| {
      return None;
    }
    var firstLen := Min(offset, SAMPLE);
    var tailStart := if offset > SAMPLE then offset - SAMPLE else 0;
    var marker := LittleEndian(offset, 8);
    var buffer := file[..firstLen];
    marker := marker + buffer;
    buffer := file[tailStart..offset];
    marker := marker + buffer;
    r := Some(marker);
  }

  /** Appending never changes the marker of an offset that was already in the file. */
  lemma MarkerSurvivesAppend(file: File, more: File, offset: nat)
    requires offset <= |file|
    ensures Marker(file + more, offset) == Marker(file, offset)
  {
    var head := Min(offset, SAMPLE);
    assert (file + more)[..head] == file[..head];
    assert (file + more)[offset - head..offset] == file[offset - head..offset];
  }

  function Power256(width: nat): nat {
    if width == 0 then 1 else 256 * Power256(width - 1)
  }

  lemma {:induction false} LittleEndianInjective(a: nat, b: nat, width: nat)
    requires a < Power256(width) && b < Power256(width)
    requires LittleEndian(a, width) == LittleEndian(b, width)
    ensures a == b
  {
    if width > 0 {
      var la, lb := LittleEndian(a, width), LittleEndian(b, width);
      assert la[0] == lb[0] && la[1..] == lb[1..];
      assert la[1..] == LittleEndian(a / 256, width - 1) && lb[1..] == LittleEndian(b / 256, width - 1);
      LittleEndianInjective(a / 256, b / 256, width - 1);
    }
  }

  /** Markers of offsets that fit in 64 bits agree only at one offset. */
  lemma MarkerNamesOffset(f: File, g: File, m: nat, n: nat)
    requires m <= |f| && n <= |g| && m < Power256(8) && n < Power256(8)
    requires Marker(f, m) == Marker(g, n)
    ensures m == n
  {
    assert Marker(f, m).value[..8] == LittleEndian(m, 8);
    assert Marker(g, n).value[..8] == LittleEndian(n, 8);
    LittleEndianInjective(m, n, 8);
  }

  lemma MarkerParts(f: File, n: nat)
    requires n <= |f|
    ensures var head, m := Min(n, SAMPLE), Marker(f, n).value;
            && |m| == 8 + head + head
            && m[8..8 + head] == f[..head]
            && m[8 + head..] == f[n - head..n]
  {
  }

  lemma ShortPrefixFromMarker(f: File, g: File, n: nat)
    requires n <= |f| && n <= |g| && n <= 2 * SAMPLE && Marker(f, n) == Marker(g, n)
    ensures f[..n] == g[..n]
  {
    var head := Min(n, SAMPLE);
    MarkerParts(f, n);
    MarkerParts(g, n);
    forall i | 0 <= i < n ensures f[i] == g[i] {
      if i < head {
        assert f[..head][i] == g[..head][i];
      } else {
        assert f[n - head..n][i - (n - head)] == g[n - head..n][i - (n - head)];
      }
    }
  }

  function Blank(n: nat): (f: File)
    ensures |f| == n
    ensures forall i :: 0 <= i < n ==> f[i] == 0
  {
    seq(n, i => 0)
  }

  /** One byte changed in the middle leaves a long prefix's marker alone. */
  lemma LongPrefixesCollide(n: nat)
    requires n > 2 * SAMPLE
    ensures var f, g := Blank(n), Blank(n)[SAMPLE := 1];
            Marker(f, n) == Marker(g, n) && f[..n] != g[..n]
  {
    var f, g := Blank(n), Blank(n)[SAMPLE := 1];
    assert f[..SAMPLE] == g[..SAMPLE];
    assert f[n - SAMPLE..n] == g[n - SAMPLE..n];
    assert f[..n][SAMPLE] != g[..n][SAMPLE];
  }

  /** The marker determines the consumed prefix exactly for offsets up to 256. */
  lemma MarkerDeterminesPrefixExactly(n: nat)
    ensures (forall f: File, g: File :: n <= |f| && n <= |g| && Marker(f, n) == Marker(g, n) ==> f[..n] == g[..n])
            <==> n <= 2 * SAMPLE
  {
    if n <= 2 * SAMPLE {
      forall f: File, g: File | n <= |f| && n <= |g| && Marker(f, n) == Marker(g, n) ensures f[..n] == g[..n] {
        ShortPrefixFromMarker(f, g, n);
      }
    } else {
      LongPrefixesCollide(n);
    }
  }

  // ----- The tables -----

  /** An observation id within one transcript: the generation is part of the stored source name. */
  datatype TranscriptId = TranscriptId(generation: nat, offset: nat)

  datatype Row = Row(id: TranscriptId, record: Record)

  datatype CursorRow = CursorRow(next: nat, marker: seq<Byte>, generation: nat)

  const FRESH_CURSOR: CursorRow := CursorRow(0, [], 0)

  /** The observations, the cursor, and the snapshots and windows that all transcripts share. */
  datatype Store = Store(rows: seq<Row>, cursor: Option<CursorRow>, db: S.Db)

  const EMPTY_STORE: Store := Store([], None, S.EMPTY_DB)

  function CursorOf(store: Store): CursorRow {
    if store.cursor.None? then FRESH_CURSOR else store.cursor.value
  }

  predicate HasRow(rows: seq<Row>, id: TranscriptId) {
    exists i :: 0 <= i < |rows| && rows[i].id == id
  }

  function InsertRow(rows: seq<Row>, row: Row): seq<Row> {
    if HasRow(rows, row.id) then rows else rows + [row]
  }

  function InsertRows(rows: seq<Row>, batch: seq<Row>): seq<Row> {
    if batch == [] then rows
    else InsertRow(InsertRows(rows, batch[..|batch| - 1]), batch[|batch| - 1])
  }

  /** `apply_transcript_generation`. */
  function Stamped(records: seq<Record>, generation: nat): (rows: seq<Row>)
    ensures |rows| == |records|
    ensures forall i :: 0 <= i < |rows| ==> rows[i] == Row(TranscriptId(generation, records[i].offset), records[i])
  {
    seq(|records|, i requires 0 <= i < |records| => Row(TranscriptId(generation, records[i].offset), records[i]))
  }

  // ----- One ingest: prepared outside the transaction, then committed -----

  datatype Prepared = Prepared(batch: Batch, generation: nat, marker: seq<Byte>)

  /** The file no longer continues what the cursor consumed. */
  predicate Replaced(file: File, cursor: CursorRow) {
    cursor.next > 0 && cursor.marker != [] && Marker(file, cursor.next) != Some(cursor.marker)
  }

  /** A replaced file is read from the start under a new generation. */
  function ResumePoint(file: File, cursor: CursorRow): (nat, nat) {
    if Replaced(file, cursor) then (0, cursor.generation + 1) else (cursor.next, cursor.generation)
  }

  /** The marker and the length are taken from `file`; `more` is appended before the lines are read. */
  function Prepare(parse: Parser, file: File, more: File, cursor: CursorRow): Prepared {
    var (next, generation) := ResumePoint(file, cursor);
    var batch := Ingested(parse, file + more, |file|, next);
    var marker := Marker(file + more, batch.next);
    Prepared(batch, generation, if marker.Some? then marker.value else [])
  }

  // ----- The replay in the same transaction -----

  /** What a replay needs besides the rows; `decode` gives the snapshot of a record that has one. */
  datatype Rules = Rules(
    config: UsageModel.Config,
    profile: S.Profile,
    decode: Record -> Option<UsageModel.Observation>)

  function SnapshotOf(rules: Rules, row: Row): Option<UsageModel.Observation> {
    match rules.decode(row.record)
    case None => None
    case Some(o) => Some(o.(id := UsageModel.ObservationId(row.id.generation, row.id.offset)))
  }

  function Snapshots(rules: Rules, rows: seq<Row>): seq<UsageModel.Observation> {
    if rows == [] then []
    else
      var init, last := Snapshots(rules, rows[..|rows| - 1]), SnapshotOf(rules, rows[|rows| - 1]);
      if last.Some? then init + [last.value] else init
  }

  function SnapshotsAfter(rules: Rules, db: S.Db, p: Prepared): seq<UsageModel.Observation> {
    S.InsertAll(db.snapshots, Snapshots(rules, Stamped(p.batch.records, p.generation)))
  }

  /** The database after the replay, unless the replay repeats a window start. */
  function Replayed(rules: Rules, db: S.Db, snapshots: seq<UsageModel.Observation>): Option<S.Db> {
    var ws := S.RebuiltWindows(rules.config, rules.profile, snapshots, db.windows);
    if S.DistinctStarts(ws) then Some(S.Db(snapshots, S.RowsFor(ws, S.LatestReset(db.resets)), db.resets)) else None
  }

  /** The replay of everything stored and the batch opens no window with the start of an earlier one. */
  ghost predicate ReplayRepeatsNoStart(rules: Rules, db: S.Db, p: Prepared) {
    W.NoStartRepeats(WindowReplay.Env(rules.config, rules.profile, S.PreservedOf(db.windows)),
                     WindowReplay.Backfilled(S.ReplayItems(SnapshotsAfter(rules, db, p))))
  }

  /** The rows and the cursor of a committed batch. */
  function Written(store: Store, p: Prepared, db: S.Db): Store {
    Store(InsertRows(store.rows, Stamped(p.batch.records, p.generation)),
          Some(CursorRow(p.batch.next, p.marker, p.generation)), db)
  }

  /** The transaction: all of it, or nothing. */
  function Commit(rules: Rules, store: Store, p: Prepared): Store {
    match Replayed(rules, store.db, SnapshotsAfter(rules, store.db, p))
    case None => store
    case Some(db) => Written(store, p, db)
  }

  /** A commit takes place exactly when its replay repeats no start; otherwise the store is as it was. */
  lemma {:induction false} CommitSucceedsExactly(rules: Rules, store: Store, p: Prepared)
    ensures Replayed(rules, store.db, SnapshotsAfter(rules, store.db, p)).Some? <==> ReplayRepeatsNoStart(rules, store.db, p)
    ensures if ReplayRepeatsNoStart(rules, store.db, p)
            then exists db :: Commit(rules, store, p) == Written(store, p, db)
            else Commit(rules, store, p) == store
  {
    W.DistinctStartsExactly(WindowReplay.Env(rules.config, rules.profile, S.PreservedOf(store.db.windows)),
                            WindowReplay.Backfilled(S.ReplayItems(SnapshotsAfter(rules, store.db, p))));
    var replayed := Replayed(rules, store.db, SnapshotsAfter(rules, store.db, p));
    assert replayed.Some? ==> Commit(rules, store, p) == Written(store, p, replayed.value);
  }

  class TranscriptStore {
    const database: S.StateStore
    const rules: Rules
    var rows: seq<Row>
    var cursor: Option<CursorRow>

    ghost predicate Valid()
    {
      database.config == rules.config
    }

    function Contents(): Store
      reads this, database
    {
      Store(rows, cursor, database.Contents())
    }

    constructor (rules: Rules)
      ensures Valid() && Contents() == EMPTY_STORE && this.rules == rules && fresh(database)
    {
      this.rules := rules;
      rows, cursor := [], None;
      database := new S.StateStore(rules.config);
    }

    method InsertObservations(batch: seq<Row>) returns (inserted: nat)
      modifies this`rows
      ensures rows == InsertRows(old(rows), batch)
      ensures inserted == |rows| - |old(rows)|
    {
      inserted := 0;
      assert batch[..0] == [];
      for i := 0 to |batch|
        invariant rows == InsertRows(old(rows), batch[..i])
        invariant inserted == |rows| - |old(rows)|
      {
        assert batch[..i + 1][..i] == batch[..i];
        if !HasRow(rows, batch[i].id) {
          rows := rows + [batch[i]];
          inserted := inserted + 1;
        }
      }
      assert batch[..|batch|] == batch;
    }

    /** Where the pass starts, after the continuity check. */
    method ChooseStart(file: File) returns (next: nat, generation: nat)
      ensures (next, generation) == ResumePoint(file, CursorOf(Contents()))
    {
      var saved := if cursor.None? then FRESH_CURSOR else cursor.value;
      next, generation := saved.next, saved.generation;
      if next > 0 && saved.marker != [] {
        var currentMarker := TranscriptContinuityMarker(file, next);
        if currentMarker != Some(saved.marker) {
          next := 0;
          generation := generation + 1;
        }
      }
    }

    method ApplyGeneration(records: seq<Record>, generation: nat)
      returns (stamped: seq<Row>, snapshots: seq<UsageModel.Observation>)
      ensures stamped == Stamped(records, generation) && snapshots == Snapshots(rules, stamped)
    {
      stamped, snapshots := [], [];
      for i := 0 to |records|
        invariant stamped == Stamped(records, generation)[..i]
        invariant snapshots == Snapshots(rules, stamped)
      {
        var row := Row(TranscriptId(generation, records[i].offset), records[i]);
        var snapshot := SnapshotOf(rules, row);
        assert (stamped + [row])[..|stamped|] == stamped;
        stamped := stamped + [row];
        if snapshot.Some? {
          snapshots := snapshots + [snapshot.value];
        }
      }
      assert stamped == Stamped(records, generation);
    }

    /** What the preparation yields; the file is read before the transaction begins. */
    method PrepareBatch(parse: Parser, file: File, more: File) returns (p: Prepared)
      ensures p == Prepare(parse, file, more, CursorOf(Contents()))
    {
      var next, generation := ChooseStart(file);
      var batch := TranscriptScan.IngestTranscript(parse, file + more, |file|, next);
      var marker := TranscriptContinuityMarker(file + more, batch.next);
      p := Prepared(batch, generation, if marker.Some? then marker.value else []);
    }

    /** Snapshots, observations, cursor and windows in one transaction, rolled back if the replay fails. */
    method CommitBatch(p: Prepared) returns (r: Result<nat, S.StoreError>)
      requires Valid()
      modifies this`rows, this`cursor, database`snapshots, database`windows
      ensures Contents() == Commit(rules, old(Contents()), p)
      ensures r.Success? <==> Replayed(rules, old(database.Contents()), SnapshotsAfter(rules, old(database.Contents()), p)).Some?
      ensures r.Success? ==> r.value == |rows| - |old(rows)|
    {
      var before, beforeRows, beforeCursor := database.snapshots, rows, cursor;
      var stamped, snapshots := ApplyGeneration(p.batch.records, p.generation);
      var _ := database.InsertSnapshots(snapshots);
      var inserted := InsertObservations(stamped);
      cursor := Some(CursorRow(p.batch.next, p.marker, p.generation));
      var rebuilt := database.Rebuild(rules.profile);
      match rebuilt {
        case Success(table) =>
          database.windows := table;
          r := Success(inserted);
        case Failure(e) =>
          database.snapshots, rows, cursor := before, beforeRows, beforeCursor;
          r := Failure(e);
      }
    }

    method IngestTranscript(parse: Parser, file: File, more: File) returns (p: Prepared, r: Result<nat, S.StoreError>)
      requires Valid()
      modifies this`rows, this`cursor, database`snapshots, database`windows
      ensures p == Prepare(parse, file, more, CursorOf(old(Contents())))
      ensures Contents() == Commit(rules, old(Contents()), p)
      ensures r.Success? <==> ReplayRepeatsNoStart(rules, old(database.Contents()), p)
      ensures r.Success? ==> r.value == |rows| - |old(rows)|
    {
      p := PrepareBatch(parse, file, more);
      CommitSucceedsExactly(rules, Contents(), p);
      r := CommitBatch(p);
    }
  }

  // ----- Generation freshness -----

  /** A pass yields strictly increasing offsets between its start and its cursor. */
  ghost predicate OffsetsWithin(records: seq<Record>, low: nat, high: nat) {
    && (forall r :: r in records ==> low <= r.offset < high)
    && (forall i, j :: 0 <= i < j < |records| ==> records[i].offset < records[j].offset)
  }

  lemma EntryOffsets(parse: Parser, file: File, offset: nat, context: Context)
    requires offset < |file|
    ensures var entry := FirstEntry(parse, file, offset, context);
            OffsetsWithin(entry.records, offset, entry.next)
  {
  }

  lemma {:induction false} ScanOffsets(parse: Parser, file: File, fileLen: nat, offset: nat, context: Context)
    requires offset <= |file|
    ensures var b := Scan(parse, file, fileLen, offset, context);
            && offset <= b.next <= |file|
            && OffsetsWithin(b.records, offset, b.next)
    decreases |file| - offset
  {
    if offset < |file| && !StopsAt(parse, file, fileLen, offset) {
      var entry := FirstEntry(parse, file, offset, context);
      EntryOffsets(parse, file, offset, context);
      ScanOffsets(parse, file, fileLen, entry.next, entry.context);
      var rest := Scan(parse, file, fileLen, entry.next, entry.context);
      OffsetsJoin(entry.records, rest.records, offset, entry.next, rest.next);
    }
  }

  lemma OffsetsJoin(a: seq<Record>, b: seq<Record>, low: nat, mid: nat, high: nat)
    requires low <= mid <= high && OffsetsWithin(a, low, mid) && OffsetsWithin(b, mid, high)
    ensures OffsetsWithin(a + b, low, high)
  {
    var c := a + b;
    forall i, j | 0 <= i < j < |c| ensures c[i].offset < c[j].offset {
      if i < |a| <= j {
        assert c[i] in a && c[j] in b;
      }
    }
  }

  /** Every stored id lies behind the cursor: an older generation, or an earlier offset of this one. */
  ghost predicate BehindCursor(store: Store) {
    && (store.cursor.None? ==> store.rows == [])
    && (store.cursor.Some? ==>
          && store.cursor.value.marker != []
          && forall row :: row in store.rows ==>
               || row.id.generation < store.cursor.value.generation
               || (row.id.generation == store.cursor.value.generation && row.id.offset < store.cursor.value.next))
  }

  /** What an ingest produces is new to the store. */
  lemma PreparedIsAhead(parse: Parser, file: File, more: File, store: Store)
    requires BehindCursor(store)
    ensures var p := Prepare(parse, file, more, CursorOf(store));
            && p.marker != []
            && (forall r, row :: r in p.batch.records && row in store.rows ==>
                  row.id != TranscriptId(p.generation, r.offset))
            && OffsetsWithin(p.batch.records, 0, p.batch.next)
            && (forall row :: row in store.rows ==>
                  row.id.generation < p.generation
                  || (row.id.generation == p.generation && row.id.offset < p.batch.next))
  {
    var cursor := CursorOf(store);
    var (next, generation) := ResumePoint(file, cursor);
    var p := Prepare(parse, file, more, cursor);
    ScanOffsets(parse, file + more, |file|, StartOffset(|file|, next), NO_CONTEXT);
    if !Replaced(file, cursor) && cursor.next > 0 {
      assert StartOffset(|file|, next) == next;
    }
  }

  lemma {:induction false} AllInserted(rows: seq<Row>, batch: seq<Row>)
    requires forall i, row :: 0 <= i < |batch| && row in rows ==> row.id != batch[i].id
    requires forall i, j :: 0 <= i < j < |batch| ==> batch[i].id != batch[j].id
    ensures InsertRows(rows, batch) == rows + batch
  {
    if batch == [] {
    } else {
      var n := |batch| - 1;
      AllInserted(rows, batch[..n]);
      var mid := rows + batch[..n];
      forall k | 0 <= k < |mid| ensures mid[k].id != batch[n].id {
        if k < |rows| {
          assert mid[k] in rows;
        }
      }
      assert mid + [batch[n]] == rows + batch;
    }
  }

  /**
    An ingest of the file as it is found, with what is appended between its
    opening and its reading, or something else that happens to the database: an
    ingest from another source, a refresh, a manual reset.
  */
  datatype Event = Visit(file: File, more: File) | Elsewhere(op: T.Op)

  function After(parse: Parser, rules: Rules, store: Store, event: Event): Store {
    match event
    case Visit(file, more) => Commit(rules, store, Prepare(parse, file, more, CursorOf(store)))
    case Elsewhere(op) => store.(db := T.RunOp(rules.config, store.db, op))
  }

  /** One store, any history of contents of the file: appended to, truncated or replaced between ingests. */
  function IngestHistory(parse: Parser, rules: Rules, events: seq<Event>): Store {
    if events == [] then EMPTY_STORE
    else After(parse, rules, IngestHistory(parse, rules, events[..|events| - 1]), events[|events| - 1])
  }

  /** What an ingest of any file content writes is every record it produced: no id was ever used before. */
  lemma WritingInsertsAll(parse: Parser, store: Store, file: File, more: File, db: S.Db)
    requires BehindCursor(store)
    ensures var p := Prepare(parse, file, more, CursorOf(store));
            && Written(store, p, db).rows == store.rows + Stamped(p.batch.records, p.generation)
            && BehindCursor(Written(store, p, db))
  {
    var p := Prepare(parse, file, more, CursorOf(store));
    var batch := Stamped(p.batch.records, p.generation);
    PreparedIsAhead(parse, file, more, store);
    forall i, row | 0 <= i < |batch| && row in store.rows ensures row.id != batch[i].id {
      assert p.batch.records[i] in p.batch.records;
    }
    AllInserted(store.rows, batch);
    forall row | row in batch ensures row.id.generation == p.generation && row.id.offset < p.batch.next {
      var i :| 0 <= i < |batch| && batch[i] == row;
      assert p.batch.records[i] in p.batch.records;
    }
  }

  /** An ingest of any file content inserts every record it produced, or its replay repeats a start and nothing changes. */
  lemma IngestInsertsAll(parse: Parser, rules: Rules, store: Store, file: File, more: File)
    requires BehindCursor(store)
    ensures var p := Prepare(parse, file, more, CursorOf(store));
            && BehindCursor(Commit(rules, store, p))
            && if ReplayRepeatsNoStart(rules, store.db, p)
               then Commit(rules, store, p).rows == store.rows + Stamped(p.batch.records, p.generation)
               else Commit(rules, store, p) == store
  {
    var p := Prepare(parse, file, more, CursorOf(store));
    CommitSucceedsExactly(rules, store, p);
    if ReplayRepeatsNoStart(rules, store.db, p) {
      var db :| Commit(rules, store, p) == Written(store, p, db);
      WritingInsertsAll(parse, store, file, more, db);
    }
  }

  lemma {:induction false} HistoryStaysBehind(parse: Parser, rules: Rules, events: seq<Event>)
    ensures BehindCursor(IngestHistory(parse, rules, events))
  {
    if events == [] {
    } else {
      var store, event := IngestHistory(parse, rules, events[..|events| - 1]), events[|events| - 1];
      HistoryStaysBehind(parse, rules, events[..|events| - 1]);
      if event.Visit? {
        IngestInsertsAll(parse, rules, store, event.file, event.more);
      }
    }
  }

  lemma {:induction false} HistoryOneMore(parse: Parser, rules: Rules, events: seq<Event>, event: Event)
    ensures IngestHistory(parse, rules, events + [event]) == After(parse, rules, IngestHistory(parse, rules, events), event)
  {
    assert (events + [event])[..|events|] == events;
  }

  /**
    Generation freshness: over every sequential history no two stored rows share
    an id, and the next ingest stores every record it produced exactly when its
    replay repeats no start or it produced none; otherwise it changes nothing.
  */
  lemma {:induction false} GenerationsAreFresh(parse: Parser, rules: Rules, events: seq<Event>, file: File, more: File)
    ensures var store := IngestHistory(parse, rules, events);
            var p := Prepare(parse, file, more, CursorOf(store));
            var after := IngestHistory(parse, rules, events + [Visit(file, more)]);
            && DistinctRowIds(store.rows)
            && (after.rows == store.rows + Stamped(p.batch.records, p.generation)
                <==> ReplayRepeatsNoStart(rules, store.db, p) || p.batch.records == [])
            && (!ReplayRepeatsNoStart(rules, store.db, p) ==> after == store)
  {
    HistoryStaysBehind(parse, rules, events);
    IngestInsertsAll(parse, rules, IngestHistory(parse, rules, events), file, more);
    HistoryOneMore(parse, rules, events, Visit(file, more));
    HistoryHasDistinctIds(parse, rules, events);
    SomethingMore(IngestHistory(parse, rules, events).rows,
                  Stamped(Prepare(parse, file, more, CursorOf(IngestHistory(parse, rules, events))).batch.records,
                          Prepare(parse, file, more, CursorOf(IngestHistory(parse, rules, events))).generation));
  }

  lemma SomethingMore(a: seq<Row>, b: seq<Row>)
    ensures a == a + b <==> b == []
  {
    assert |a + b| == |a| + |b|;
  }

  ghost predicate DistinctRowIds(rows: seq<Row>) {
    forall i, j :: 0 <= i < j < |rows| ==> rows[i].id != rows[j].id
  }

  lemma {:induction false} InsertRowsDistinct(rows: seq<Row>, batch: seq<Row>)
    requires DistinctRowIds(rows)
    ensures DistinctRowIds(InsertRows(rows, batch)) && rows <= InsertRows(rows, batch)
  {
    if batch == [] {
    } else {
      InsertRowsDistinct(rows, batch[..|batch| - 1]);
    }
  }

  lemma {:induction false} HistoryHasDistinctIds(parse: Parser, rules: Rules, events: seq<Event>)
    ensures DistinctRowIds(IngestHistory(parse, rules, events).rows)
  {
    if events == [] {
    } else {
      var before, event := IngestHistory(parse, rules, events[..|events| - 1]), events[|events| - 1];
      HistoryHasDistinctIds(parse, rules, events[..|events| - 1]);
      if event.Visit? {
        var p := Prepare(parse, event.file, event.more, CursorOf(before));
        InsertRowsDistinct(before.rows, Stamped(p.batch.records, p.generation));
      }
    }
  }
}
