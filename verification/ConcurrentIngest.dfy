/**
  Any number of writers on one append-only transcript.  A writer reads the
  cursor row outside the transaction, later opens the file and samples its
  length, then reads line after line, and later commits, or is rolled back if
  the replay in its transaction fails; other writers, appends and whatever else
  happens to the database come between any two of these steps.
*/
module ConcurrentIngest {
  import opened Options
  import opened LineReader
  import opened TranscriptScan
  import opened Resumability
  import opened Transcripts
  import S = StateStore
  import T = TableInvariants

  // ----- What the file itself records -----

  /** An offset at which a line begins. */
  predicate LineStart(file: File, offset: nat) {
    offset <= |file| && (offset == 0 || file[offset - 1] == NEWLINE)
  }

  /** The record the finished line at `offset` stands for, inherited metadata aside. */
  function RecordOf(parse: Parser, file: File, offset: nat): Option<Record>
    requires offset <= |file|
  {
    if LineAt(file, offset).oversized then None
    else
      match ParsedAt(parse, file, offset)
      case Some(Relevant(Some(reading), _, _)) =>
        Some(Record(offset, reading.observation, reading.snapshot, NO_CONTEXT))
      case _ => None
  }

  function BareRecord(r: Record): Record {
    r.(metadata := NO_CONTEXT)
  }

  /** `r` is what the file records at its offset, on a finished line. */
  ghost predicate Genuine(parse: Parser, file: File, r: Record) {
    && r.offset < LastBreak(file)
    && LineStart(file, r.offset)
    && RecordOf(parse, file, r.offset) == Some(BareRecord(r))
  }

  ghost predicate Recorded(parse: Parser, file: File, offset: nat) {
    offset < LastBreak(file) && LineStart(file, offset) && RecordOf(parse, file, offset).Some?
  }

  // ----- Facts about lines -----

  lemma {:induction false} LastBreakBounds(file: File, offset: nat)
    requires LineStart(file, offset)
    ensures offset <= LastBreak(file)
    decreases |file|
  {
    if offset > 0 && file[|file| - 1] != NEWLINE {
      LastBreakBounds(file[..|file| - 1], offset);
    }
  }

  lemma {:induction false} LastBreakGrows(p: File, s: File)
    ensures LastBreak(p) <= LastBreak(p + s)
  {
    LastBreakFacts(p);
    assert LineStart(p + s, LastBreak(p)) by {
      assert LastBreak(p) > 0 ==> (p + s)[LastBreak(p) - 1] == p[LastBreak(p) - 1];
    }
    LastBreakBounds(p + s, LastBreak(p));
  }

  /** No line begins inside another. */
  lemma NoStartInside(file: File, offset: nat, inside: nat)
    requires offset < inside <= |file| && inside < offset + LineLen(file[offset..])
    ensures !LineStart(file, inside)
  {
    var rest := file[offset..];
    ContentLenStops(rest);
    assert rest[..ContentLen(rest)][inside - 1 - offset] == file[inside - 1];
  }

  /** A finished line ends where another begins. */
  lemma NextIsStart(file: File, offset: nat)
    requires offset < LastBreak(file)
    ensures LineStart(file, offset + LineLen(file[offset..]))
  {
    FinishedLine(file, offset);
    ContentLenStops(file[offset..]);
  }

  lemma {:induction false} GenuineSurvives(parse: Parser, p: File, s: File, offset: nat)
    requires offset < LastBreak(p)
    ensures offset < LastBreak(p + s) <= |p + s|
    ensures LineStart(p + s, offset) <==> LineStart(p, offset)
    ensures RecordOf(parse, p + s, offset) == RecordOf(parse, p, offset)
  {
    LastBreakGrows(p, s);
    FinishedLine(p, offset);
    SameLine(p, s, offset);
  }

  // ----- One pass -----

  /** The records of a pass are genuine, and none on its way is missing. */
  ghost predicate Covers(parse: Parser, file: File, low: nat, b: Batch) {
    && low <= b.next <= LastBreak(file)
    && LineStart(file, b.next)
    && (forall r :: r in b.records ==> low <= r.offset < b.next && Genuine(parse, file, r))
    && (forall o :: low <= o < b.next && Recorded(parse, file, o) ==> exists r :: r in b.records && r.offset == o)
  }

  /** A consumed line contributes its record, if it is one. */
  lemma EntryRecord(parse: Parser, file: File, offset: nat, context: Context)
    requires offset < |file|
    ensures var records := FirstEntry(parse, file, offset, context).records;
            match RecordOf(parse, file, offset)
            case None => records == []
            case Some(r) => |records| == 1 && BareRecord(records[0]) == r && records[0].offset == offset
  {
  }

  lemma EntryEnds(parse: Parser, file: File, offset: nat, context: Context)
    requires offset < |file|
    ensures FirstEntry(parse, file, offset, context).next == offset + LineLen(file[offset..])
  {
  }

  lemma EntryCovers(parse: Parser, file: File, offset: nat, context: Context)
    requires offset < LastBreak(file) && LineStart(file, offset)
    ensures Covers(parse, file, offset, FirstEntry(parse, file, offset, context))
  {
    FinishedLine(file, offset);
    NextIsStart(file, offset);
    EntryRecord(parse, file, offset, context);
    EntryEnds(parse, file, offset, context);
    var entry := FirstEntry(parse, file, offset, context);
    forall o | offset <= o < entry.next && Recorded(parse, file, o) ensures exists r :: r in entry.records && r.offset == o {
      if o > offset {
        NoStartInside(file, offset, o);
      }
      assert entry.records[0] in entry.records;
    }
  }

  lemma CoversJoin(parse: Parser, file: File, low: nat, a: Batch, b: Batch)
    requires Covers(parse, file, low, a) && Covers(parse, file, a.next, b)
    ensures Covers(parse, file, low, Plus(a, b))
  {
    var c := Plus(a, b);
    forall o | low <= o < c.next && Recorded(parse, file, o) ensures exists r :: r in c.records && r.offset == o {
      if o < a.next {
        var r :| r in a.records && r.offset == o;
        assert r in c.records;
      } else {
        var r :| r in b.records && r.offset == o;
        assert r in c.records;
      }
    }
  }

  /** A pass from the start of a line over a file with an unfinished tail covers what it consumes. */
  lemma {:induction false} ScanCovers(parse: Parser, file: File, offset: nat, context: Context)
    requires LineStart(file, offset) && TailUnfinished(parse, file)
    ensures Covers(parse, file, offset, Scan(parse, file, |file|, offset, context))
    decreases |file| - offset
  {
    LastBreakBounds(file, offset);
    if offset == |file| {
    } else if offset == LastBreak(file) {
      UnfinishedStops(parse, file);
    } else if StopsAt(parse, file, |file|, offset) {
    } else {
      var entry := FirstEntry(parse, file, offset, context);
      EntryCovers(parse, file, offset, context);
      ScanCovers(parse, file, entry.next, entry.context);
      CoversJoin(parse, file, offset, entry, Scan(parse, file, |file|, entry.next, entry.context));
    }
  }

  // ----- Reading one line -----

  /** The line at `offset` ends in a newline. */
  predicate FinishedAt(file: File, offset: nat)
    requires offset <= |file|
  {
    ContentLen(file[offset..]) < |file| - offset
  }

  /** Reading on from `offset` never consumes a line that is still being written. */
  predicate ReadIsSafe(parse: Parser, file: File, fileLen: nat, offset: nat) {
    offset >= |file| || FinishedAt(file, offset) || StopsAt(parse, file, fileLen, offset)
  }

  /** One turn of the loop on the file as it is now. */
  function ReadOn(parse: Parser, file: File, fileLen: nat, b: Batch): (Batch, bool) {
    if b.next >= |file| then (b, true)
    else if StopsAt(parse, file, fileLen, b.next) then (b.(incompleteTail := true), true)
    else (Plus(b, FirstEntry(parse, file, b.next, b.context)), false)
  }

  lemma FinishedExactly(file: File, offset: nat)
    requires LineStart(file, offset)
    ensures FinishedAt(file, offset) <==> offset < LastBreak(file)
    ensures !FinishedAt(file, offset) ==> offset == LastBreak(file)
  {
    LastBreakBounds(file, offset);
    if offset < LastBreak(file) {
      FinishedLine(file, offset);
    } else {
      UnfinishedLine(file);
    }
  }

  /**
    A read from the start of a line is safe exactly when the fragment after the
    last newline is not reached, or is empty, or is left alone because it is not
    yet a record and the file has not grown since its length was sampled.
  */
  lemma ReadIsSafeExactly(parse: Parser, file: File, fileLen: nat, offset: nat)
    requires LineStart(file, offset)
    ensures ReadIsSafe(parse, file, fileLen, offset) <==>
              offset < LastBreak(file) || LastBreak(file) == |file| || (TailUnfinished(parse, file) && fileLen == |file|)
  {
    FinishedExactly(file, offset);
    if offset == LastBreak(file) {
      UnfinishedLine(file);
      var rest := file[offset..];
      assert rest[..|rest|] == rest;
    }
  }

  lemma SafeReadEndsOnLine(parse: Parser, file: File, fileLen: nat, b: Batch)
    requires LineStart(file, b.next) && ReadIsSafe(parse, file, fileLen, b.next)
    ensures LineStart(file, ReadOn(parse, file, fileLen, b).0.next)
  {
    if b.next < |file| && !StopsAt(parse, file, fileLen, b.next) {
      FinishedExactly(file, b.next);
      EntryEnds(parse, file, b.next, b.context);
      NextIsStart(file, b.next);
    }
  }

  lemma FragmentEndsInside(file: File)
    requires LastBreak(file) < |file|
    ensures !LineStart(file, |file|)
  {
    LastBreakFacts(file);
    var rest := file[LastBreak(file)..];
    assert rest[|rest| - 1] == file[|file| - 1];
  }

  lemma UnsafeReadEndsInside(parse: Parser, file: File, fileLen: nat, b: Batch)
    requires LineStart(file, b.next) && !ReadIsSafe(parse, file, fileLen, b.next)
    ensures ReadOn(parse, file, fileLen, b).0.next == |file| && !LineStart(file, |file|)
  {
    FinishedExactly(file, b.next);
    EntryEnds(parse, file, b.next, b.context);
    UnfinishedLine(file);
    FragmentEndsInside(file);
  }

  /** What the read leaves behind is the start of a line, whatever is appended later, exactly when it is safe. */
  lemma ReadStaysOnLinesExactly(parse: Parser, file: File, fileLen: nat, b: Batch)
    requires LineStart(file, b.next)
    ensures (forall s :: LineStart(file + s, ReadOn(parse, file, fileLen, b).0.next))
            <==> ReadIsSafe(parse, file, fileLen, b.next)
  {
    var next := ReadOn(parse, file, fileLen, b).0.next;
    if ReadIsSafe(parse, file, fileLen, b.next) {
      SafeReadEndsOnLine(parse, file, fileLen, b);
      forall s ensures LineStart(file + s, next) {
        assert next > 0 ==> (file + s)[next - 1] == file[next - 1];
      }
    } else {
      UnsafeReadEndsInside(parse, file, fileLen, b);
      assert file + [] == file;
      assert !LineStart(file + [], next);
    }
  }

  // ----- The step system -----

  datatype Writer =
    | Idle
    | HasCursor(cursor: CursorRow)
    | Scanning(generation: nat, fileLen: nat, batch: Batch)
    | HasBatch(prepared: Prepared)

  datatype World = World(rules: Rules, file: File, store: Store, writers: seq<Writer>)

  datatype Action =
    | Append(bytes: seq<Byte>)
    | ReadCursor(who: nat)
    | OpenFile(who: nat)
    | ReadNext(who: nat)
    | CommitBatch(who: nat)
    | Elsewhere(op: T.Op)

  /** The marker is checked, the length sampled and the start chosen. */
  function Opened(file: File, cursor: CursorRow): Writer {
    var (next, generation) := ResumePoint(file, cursor);
    Scanning(generation, |file|, Nothing(StartOffset(|file|, next), false, NO_CONTEXT))
  }

  function WithMarker(file: File, generation: nat, batch: Batch): Prepared {
    var marker := Marker(file, batch.next);
    Prepared(batch, generation, if marker.Some? then marker.value else [])
  }

  function AfterRead(parse: Parser, file: File, writer: Writer): Writer
    requires writer.Scanning?
  {
    var (batch, done) := ReadOn(parse, file, writer.fileLen, writer.batch);
    if done then HasBatch(WithMarker(file, writer.generation, batch))
    else Scanning(writer.generation, writer.fileLen, batch)
  }

  /** An action that is not enabled does nothing. */
  function Act(parse: Parser, w: World, a: Action): World {
    match a
    case Append(bytes) => w.(file := w.file + bytes)
    case ReadCursor(i) =>
      if i < |w.writers| && w.writers[i].Idle?
      then w.(writers := w.writers[i := HasCursor(CursorOf(w.store))]) else w
    case OpenFile(i) =>
      if i < |w.writers| && w.writers[i].HasCursor?
      then w.(writers := w.writers[i := Opened(w.file, w.writers[i].cursor)]) else w
    case ReadNext(i) =>
      if i < |w.writers| && w.writers[i].Scanning?
      then w.(writers := w.writers[i := AfterRead(parse, w.file, w.writers[i])]) else w
    case CommitBatch(i) =>
      if i < |w.writers| && w.writers[i].HasBatch?
      then w.(store := Commit(w.rules, w.store, w.writers[i].prepared), writers := w.writers[i := Idle]) else w
    case Elsewhere(op) => w.(store := w.store.(db := T.RunOp(w.rules.config, w.store.db, op)))
  }

  function Start(rules: Rules, writers: nat): World {
    World(rules, [], EMPTY_STORE, seq(writers, i => Idle))
  }

  function RunFrom(parse: Parser, w: World, actions: seq<Action>): World {
    if actions == [] then w
    else Act(parse, RunFrom(parse, w, actions[..|actions| - 1]), actions[|actions| - 1])
  }

  function RunWorld(parse: Parser, rules: Rules, writers: nat, actions: seq<Action>): World {
    RunFrom(parse, Start(rules, writers), actions)
  }

  /** The action does not make a writer consume a line that is still being written. */
  ghost predicate ActsSafely(parse: Parser, w: World, a: Action) {
    a.ReadNext? && a.who < |w.writers| && w.writers[a.who].Scanning? ==>
      ReadIsSafe(parse, w.file, w.writers[a.who].fileLen, w.writers[a.who].batch.next)
  }

  /** Every line any writer reads is read safely. */
  ghost predicate ReadsAreSafe(parse: Parser, rules: Rules, writers: nat, actions: seq<Action>) {
    forall k :: 0 <= k < |actions| ==> ActsSafely(parse, RunWorld(parse, rules, writers, actions[..k]), actions[k])
  }

  // ----- The invariant -----

  ghost predicate Stored(rows: seq<Row>, offset: nat) {
    exists row :: row in rows && row.id == TranscriptId(0, offset)
  }

  ghost predicate Covered(parse: Parser, file: File, rows: seq<Row>, next: nat) {
    forall o :: 0 <= o < next && Recorded(parse, file, o) ==> Stored(rows, o)
  }

  /** A cursor that was once committed: still at a line start, its marker still right, everything before it stored. */
  ghost predicate GoodCursor(parse: Parser, file: File, rows: seq<Row>, c: CursorRow) {
    && c.generation == 0
    && LineStart(file, c.next)
    && (c.next > 0 ==> Marker(file, c.next) == Some(c.marker))
    && Covered(parse, file, rows, c.next)
  }

  ghost predicate GoodRows(parse: Parser, file: File, rows: seq<Row>) {
    && DistinctRowIds(rows)
    && forall row :: row in rows ==> row.id == TranscriptId(0, row.record.offset) && Genuine(parse, file, row.record)
  }

  ghost predicate InBatch(b: Batch, offset: nat) {
    exists r :: r in b.records && r.offset == offset
  }

  /** What a writer has read: genuine records that complete what the store already covers, up to the start of a line. */
  ghost predicate GoodProgress(parse: Parser, file: File, rows: seq<Row>, b: Batch) {
    && LineStart(file, b.next)
    && (forall r :: r in b.records ==> Genuine(parse, file, r))
    && (forall o :: 0 <= o < b.next && Recorded(parse, file, o) ==> Stored(rows, o) || InBatch(b, o))
  }

  ghost predicate GoodBatch(parse: Parser, file: File, rows: seq<Row>, p: Prepared) {
    && p.generation == 0
    && Marker(file, p.batch.next) == Some(p.marker)
    && GoodProgress(parse, file, rows, p.batch)
  }

  ghost predicate GoodWriter(parse: Parser, file: File, rows: seq<Row>, writer: Writer) {
    match writer
    case Idle => true
    case HasCursor(c) => GoodCursor(parse, file, rows, c)
    case Scanning(generation, _, b) => generation == 0 && GoodProgress(parse, file, rows, b)
    case HasBatch(p) => GoodBatch(parse, file, rows, p)
  }

  ghost predicate Safe(parse: Parser, w: World) {
    && GoodRows(parse, w.file, w.store.rows)
    && GoodCursor(parse, w.file, w.store.rows, CursorOf(w.store))
    && forall i :: 0 <= i < |w.writers| ==> GoodWriter(parse, w.file, w.store.rows, w.writers[i])
  }

  // ----- Appends keep everything -----

  lemma RecordedBefore(parse: Parser, p: File, s: File, next: nat, o: nat)
    requires LineStart(p, next) && o < next
    ensures Recorded(parse, p + s, o) <==> Recorded(parse, p, o)
  {
    LastBreakBounds(p, next);
    GenuineSurvives(parse, p, s, o);
  }

  lemma AppendKeepsCursor(parse: Parser, p: File, s: File, rows: seq<Row>, c: CursorRow)
    requires GoodCursor(parse, p, rows, c)
    ensures GoodCursor(parse, p + s, rows, c)
  {
    MarkerSurvivesAppend(p, s, c.next);
    forall o | 0 <= o < c.next && Recorded(parse, p + s, o) ensures Stored(rows, o) {
      RecordedBefore(parse, p, s, c.next, o);
    }
  }

  lemma AppendKeepsGenuine(parse: Parser, p: File, s: File, r: Record)
    requires Genuine(parse, p, r)
    ensures Genuine(parse, p + s, r)
  {
    GenuineSurvives(parse, p, s, r.offset);
  }

  lemma AppendKeepsProgress(parse: Parser, p: File, s: File, rows: seq<Row>, b: Batch)
    requires GoodProgress(parse, p, rows, b)
    ensures GoodProgress(parse, p + s, rows, b)
  {
    assert b.next > 0 ==> (p + s)[b.next - 1] == p[b.next - 1];
    forall r | r in b.records ensures Genuine(parse, p + s, r) {
      AppendKeepsGenuine(parse, p, s, r);
    }
    forall o | 0 <= o < b.next && Recorded(parse, p + s, o) ensures Stored(rows, o) || InBatch(b, o) {
      RecordedBefore(parse, p, s, b.next, o);
    }
  }

  lemma AppendKeepsSafe(parse: Parser, w: World, bytes: seq<Byte>)
    requires Safe(parse, w)
    ensures Safe(parse, w.(file := w.file + bytes))
  {
    var rows := w.store.rows;
    AppendKeepsCursor(parse, w.file, bytes, rows, CursorOf(w.store));
    forall row | row in rows ensures Genuine(parse, w.file + bytes, row.record) {
      AppendKeepsGenuine(parse, w.file, bytes, row.record);
    }
    forall i | 0 <= i < |w.writers| ensures GoodWriter(parse, w.file + bytes, rows, w.writers[i]) {
      match w.writers[i] {
        case Idle =>
        case HasCursor(c) => AppendKeepsCursor(parse, w.file, bytes, rows, c);
        case Scanning(_, _, b) => AppendKeepsProgress(parse, w.file, bytes, rows, b);
        case HasBatch(p) =>
          MarkerSurvivesAppend(w.file, bytes, p.batch.next);
          AppendKeepsProgress(parse, w.file, bytes, rows, p.batch);
      }
    }
  }

  // ----- Preparing a batch -----

  /** An append-only file is never taken for a replaced one, so a pass starts where the cursor points. */
  lemma OpeningIsGood(parse: Parser, file: File, rows: seq<Row>, c: CursorRow)
    requires GoodCursor(parse, file, rows, c)
    ensures !Replaced(file, c)
    ensures Opened(file, c) == Scanning(0, |file|, Nothing(c.next, false, NO_CONTEXT))
    ensures GoodWriter(parse, file, rows, Opened(file, c))
  {
    assert StartOffset(|file|, c.next) == c.next;
  }

  lemma ProgressJoin(parse: Parser, file: File, rows: seq<Row>, a: Batch, b: Batch)
    requires GoodProgress(parse, file, rows, a) && Covers(parse, file, a.next, b)
    ensures GoodProgress(parse, file, rows, Plus(a, b))
  {
    var c := Plus(a, b);
    forall o | 0 <= o < c.next && Recorded(parse, file, o) ensures Stored(rows, o) || InBatch(c, o) {
      if o < a.next {
        if !Stored(rows, o) {
          var r :| r in a.records && r.offset == o;
          assert r in c.records;
        }
      } else {
        var r :| r in b.records && r.offset == o;
        assert r in c.records;
      }
    }
  }

  /** A safe read keeps what a writer has read complete, however the file grew since it was opened. */
  lemma ReadKeepsProgress(parse: Parser, file: File, rows: seq<Row>, fileLen: nat, b: Batch)
    requires GoodProgress(parse, file, rows, b) && ReadIsSafe(parse, file, fileLen, b.next)
    ensures GoodProgress(parse, file, rows, ReadOn(parse, file, fileLen, b).0)
  {
    if b.next < |file| && !StopsAt(parse, file, fileLen, b.next) {
      FinishedExactly(file, b.next);
      EntryCovers(parse, file, b.next, b.context);
      ProgressJoin(parse, file, rows, b, FirstEntry(parse, file, b.next, b.context));
    } else {
      var after := ReadOn(parse, file, fileLen, b).0;
      assert after.records == b.records && after.next == b.next;
      forall o | 0 <= o < after.next && Recorded(parse, file, o) ensures Stored(rows, o) || InBatch(after, o) {
        assert Stored(rows, o) || InBatch(b, o);
      }
    }
  }

  lemma ReadIsGood(parse: Parser, file: File, rows: seq<Row>, writer: Writer)
    requires writer.Scanning? && GoodWriter(parse, file, rows, writer)
    requires ReadIsSafe(parse, file, writer.fileLen, writer.batch.next)
    ensures GoodWriter(parse, file, rows, AfterRead(parse, file, writer))
  {
    ReadKeepsProgress(parse, file, rows, writer.fileLen, writer.batch);
  }

  /** Undisturbed, the steps are the pass of the sequential ingest. */
  lemma PrepareIsGood(parse: Parser, file: File, rows: seq<Row>, c: CursorRow)
    requires GoodCursor(parse, file, rows, c) && TailUnfinished(parse, file)
    ensures GoodBatch(parse, file, rows, Prepare(parse, file, [], c))
  {
    OpeningIsGood(parse, file, rows, c);
    assert file + [] == file;
    ScanCovers(parse, file, c.next, NO_CONTEXT);
    var start, rest := Nothing(c.next, false, NO_CONTEXT), Scan(parse, file, |file|, c.next, NO_CONTEXT);
    NothingPlus(c.next, false, NO_CONTEXT, rest);
    ProgressJoin(parse, file, rows, start, rest);
  }

  // ----- Committing a batch -----

  lemma {:induction false} InsertedAreStored(rows: seq<Row>, batch: seq<Row>)
    ensures forall row :: row in batch ==> HasRow(InsertRows(rows, batch), row.id)
    ensures forall row :: row in InsertRows(rows, batch) ==> row in rows || row in batch
  {
    if batch == [] {
    } else {
      var n := |batch| - 1;
      InsertedAreStored(rows, batch[..n]);
      var mid, all := InsertRows(rows, batch[..n]), InsertRows(rows, batch);
      assert batch == batch[..n] + [batch[n]];
      assert mid <= all;
      forall row | row in batch ensures HasRow(all, row.id) {
        if row in batch[..n] {
          var i :| 0 <= i < |mid| && mid[i].id == row.id;
          assert all[i].id == row.id;
        } else if !HasRow(mid, row.id) {
          assert all[|mid|].id == row.id;
        }
      }
    }
  }

  lemma MoreRowsStoreMore(rows: seq<Row>, more: seq<Row>)
    requires rows <= more
    ensures forall o :: Stored(rows, o) ==> Stored(more, o)
  {
    forall o | Stored(rows, o) ensures Stored(more, o) {
      var row :| row in rows && row.id == TranscriptId(0, o);
      assert row in more;
    }
  }

  lemma MoreRowsKeepWriter(parse: Parser, file: File, rows: seq<Row>, more: seq<Row>, writer: Writer)
    requires rows <= more && GoodWriter(parse, file, rows, writer)
    ensures GoodWriter(parse, file, more, writer)
  {
    MoreRowsStoreMore(rows, more);
  }

  /** The rows a commit writes, and its cursor, even if that moves the cursor backwards. */
  lemma WritingIsGood(parse: Parser, file: File, store: Store, p: Prepared, db: S.Db)
    requires GoodRows(parse, file, store.rows) && GoodBatch(parse, file, store.rows, p)
    ensures var after := Written(store, p, db);
            && store.rows <= after.rows
            && GoodRows(parse, file, after.rows)
            && GoodCursor(parse, file, after.rows, CursorOf(after))
  {
    var batch := Stamped(p.batch.records, p.generation);
    var after := Written(store, p, db);
    InsertRowsDistinct(store.rows, batch);
    InsertedAreStored(store.rows, batch);
    MoreRowsStoreMore(store.rows, after.rows);
    forall row | row in after.rows
      ensures row.id == TranscriptId(0, row.record.offset) && Genuine(parse, file, row.record)
    {
      if row !in store.rows {
        var i :| 0 <= i < |batch| && batch[i] == row;
        assert p.batch.records[i] in p.batch.records;
      }
    }
    forall o | 0 <= o < p.batch.next && Recorded(parse, file, o) ensures Stored(after.rows, o) {
      if !Stored(store.rows, o) {
        var r :| r in p.batch.records && r.offset == o;
        var i :| 0 <= i < |p.batch.records| && p.batch.records[i] == r;
        assert batch[i] in batch;
        var k :| 0 <= k < |after.rows| && after.rows[k].id == batch[i].id;
        assert after.rows[k] in after.rows;
      }
    }
  }

  /** A commit keeps rows and cursor good, whether its replay succeeds or rolls it back. */
  lemma CommitIsGood(parse: Parser, file: File, rules: Rules, store: Store, p: Prepared)
    requires GoodRows(parse, file, store.rows) && GoodBatch(parse, file, store.rows, p)
    requires GoodCursor(parse, file, store.rows, CursorOf(store))
    ensures var after := Commit(rules, store, p);
            && store.rows <= after.rows
            && GoodRows(parse, file, after.rows)
            && GoodCursor(parse, file, after.rows, CursorOf(after))
  {
    CommitSucceedsExactly(rules, store, p);
    if ReplayRepeatsNoStart(rules, store.db, p) {
      var db :| Commit(rules, store, p) == Written(store, p, db);
      WritingIsGood(parse, file, store, p, db);
    }
  }

  lemma CommitKeepsSafe(parse: Parser, w: World, i: nat)
    requires Safe(parse, w) && i < |w.writers| && w.writers[i].HasBatch?
    ensures Safe(parse, Act(parse, w, CommitBatch(i)))
  {
    var after := Act(parse, w, CommitBatch(i));
    assert GoodWriter(parse, w.file, w.store.rows, w.writers[i]);
    CommitIsGood(parse, w.file, w.rules, w.store, w.writers[i].prepared);
    forall k | 0 <= k < |after.writers| ensures GoodWriter(parse, after.file, after.store.rows, after.writers[k]) {
      if k != i {
        MoreRowsKeepWriter(parse, w.file, w.store.rows, after.store.rows, w.writers[k]);
      }
    }
  }

  lemma ActKeepsSafe(parse: Parser, w: World, a: Action)
    requires Safe(parse, w) && ActsSafely(parse, w, a)
    ensures Safe(parse, Act(parse, w, a))
  {
    match a {
      case Append(bytes) => AppendKeepsSafe(parse, w, bytes);
      case ReadCursor(i) =>
      case OpenFile(i) =>
        if i < |w.writers| && w.writers[i].HasCursor? {
          assert GoodWriter(parse, w.file, w.store.rows, w.writers[i]);
          OpeningIsGood(parse, w.file, w.store.rows, w.writers[i].cursor);
        }
      case ReadNext(i) =>
        if i < |w.writers| && w.writers[i].Scanning? {
          assert GoodWriter(parse, w.file, w.store.rows, w.writers[i]);
          ReadIsGood(parse, w.file, w.store.rows, w.writers[i]);
        }
      case CommitBatch(i) =>
        if i < |w.writers| && w.writers[i].HasBatch? {
          CommitKeepsSafe(parse, w, i);
        }
      case Elsewhere(op) =>
    }
  }

  lemma StartIsSafe(parse: Parser, rules: Rules, writers: nat)
    ensures Safe(parse, Start(rules, writers))
  {
    assert LastBreak([]) == 0;
  }

  /** Every reachable world is safe, whatever the interleaving, as long as lines are read safely. */
  lemma {:induction false} EveryInterleavingIsSafe(parse: Parser, rules: Rules, writers: nat, actions: seq<Action>)
    requires ReadsAreSafe(parse, rules, writers, actions)
    ensures Safe(parse, RunWorld(parse, rules, writers, actions))
  {
    if actions == [] {
      StartIsSafe(parse, rules, writers);
    } else {
      var n := |actions| - 1;
      ReadsAreSafeBefore(parse, rules, writers, actions, n);
      EveryInterleavingIsSafe(parse, rules, writers, actions[..n]);
      assert ActsSafely(parse, RunWorld(parse, rules, writers, actions[..n]), actions[n]);
      ActKeepsSafe(parse, RunWorld(parse, rules, writers, actions[..n]), actions[n]);
    }
  }

  lemma ReadsAreSafeBefore(parse: Parser, rules: Rules, writers: nat, actions: seq<Action>, n: nat)
    requires ReadsAreSafe(parse, rules, writers, actions) && n <= |actions|
    ensures ReadsAreSafe(parse, rules, writers, actions[..n])
  {
    forall k | 0 <= k < n ensures ActsSafely(parse, RunWorld(parse, rules, writers, actions[..n][..k]), actions[..n][k]) {
      assert actions[..n][..k] == actions[..k];
    }
  }

  lemma {:induction false} RunOneMore(parse: Parser, w: World, actions: seq<Action>, k: nat)
    requires k < |actions|
    ensures RunFrom(parse, w, actions[..k + 1]) == Act(parse, RunFrom(parse, w, actions[..k]), actions[k])
  {
    assert actions[..k + 1][..k] == actions[..k];
  }

  /** An unsafe read leaves its writer inside a line. */
  lemma UnsafeReadIsNotSafe(parse: Parser, w: World, a: Action)
    requires Safe(parse, w) && !ActsSafely(parse, w, a)
    ensures !Safe(parse, Act(parse, w, a))
  {
    var writer := w.writers[a.who];
    assert GoodWriter(parse, w.file, w.store.rows, writer);
    ReadStaysOnLinesExactly(parse, w.file, writer.fileLen, writer.batch);
    var next := ReadOn(parse, w.file, writer.fileLen, writer.batch).0.next;
    var s :| !LineStart(w.file + s, next);
    assert !LineStart(w.file, next) by {
      assert next > 0 && next <= |w.file| ==> (w.file + s)[next - 1] == w.file[next - 1];
    }
    assert !GoodWriter(parse, w.file, w.store.rows, Act(parse, w, a).writers[a.who]);
  }

  /** A run is safe all along exactly when every line in it is read safely. */
  lemma SafeThroughoutExactly(parse: Parser, rules: Rules, writers: nat, actions: seq<Action>)
    ensures (forall k :: 0 <= k <= |actions| ==> Safe(parse, RunWorld(parse, rules, writers, actions[..k])))
            <==> ReadsAreSafe(parse, rules, writers, actions)
  {
    if ReadsAreSafe(parse, rules, writers, actions) {
      forall k | 0 <= k <= |actions| ensures Safe(parse, RunWorld(parse, rules, writers, actions[..k])) {
        ReadsAreSafeBefore(parse, rules, writers, actions, k);
        EveryInterleavingIsSafe(parse, rules, writers, actions[..k]);
      }
    }
    if forall k :: 0 <= k <= |actions| ==> Safe(parse, RunWorld(parse, rules, writers, actions[..k])) {
      forall k | 0 <= k < |actions| ensures ActsSafely(parse, RunWorld(parse, rules, writers, actions[..k]), actions[k]) {
        var w := RunWorld(parse, rules, writers, actions[..k]);
        assert Safe(parse, w) && Safe(parse, RunWorld(parse, rules, writers, actions[..k + 1]));
        RunOneMore(parse, Start(rules, writers), actions, k);
        if !ActsSafely(parse, w, actions[k]) {
          UnsafeReadIsNotSafe(parse, w, actions[k]);
        }
      }
    }
  }

  /**
    Concurrent ingest safety: in every reachable world each record below the
    committed cursor is stored under exactly one row, every stored row is what
    the file records at its offset, and the generation never moves.
  */
  lemma {:induction false} NoRecordIsLost(parse: Parser, rules: Rules, writers: nat, actions: seq<Action>)
    requires ReadsAreSafe(parse, rules, writers, actions)
    ensures var w := RunWorld(parse, rules, writers, actions);
            && DistinctRowIds(w.store.rows)
            && (forall o :: 0 <= o < CursorOf(w.store).next && Recorded(parse, w.file, o) ==>
                  exists row :: row in w.store.rows && row.id == TranscriptId(0, o)
                                && RecordOf(parse, w.file, o) == Some(BareRecord(row.record)))
            && (forall row :: row in w.store.rows ==> Genuine(parse, w.file, row.record))
            && CursorOf(w.store).generation == 0
  {
    EveryInterleavingIsSafe(parse, rules, writers, actions);
    var w := RunWorld(parse, rules, writers, actions);
    forall o | 0 <= o < CursorOf(w.store).next && Recorded(parse, w.file, o)
      ensures exists row :: row in w.store.rows && row.id == TranscriptId(0, o)
                            && RecordOf(parse, w.file, o) == Some(BareRecord(row.record))
    {
      var row :| row in w.store.rows && row.id == TranscriptId(0, o);
    }
  }
}
