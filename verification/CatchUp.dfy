/**
  Catching up: what an undisturbed ingest achieves, and a transcript that the
  store never takes in.
*/
module CatchUp {
  import opened Options
  import opened LineReader
  import opened TranscriptScan
  import opened Resumability
  import opened Transcripts
  import opened ConcurrentIngest
  import UsageModel
  import S = StateStore
  import L = ReplayLimits

  lemma NothingAfterStop(parse: Parser, file: File, offset: nat, o: nat)
    requires offset < |file| && StopsAt(parse, file, |file|, offset) && offset <= o
    ensures !Recorded(parse, file, o)
  {
    LastBreakFacts(file);
    if offset < o < LastBreak(file) {
      NoStartInside(file, offset, o);
    }
  }

  /** Where a pass stops, no recorded line is left. */
  lemma {:induction false} PassLeavesNothing(parse: Parser, file: File, offset: nat, context: Context, o: nat)
    requires offset <= |file| && Scan(parse, file, |file|, offset, context).next <= o
    ensures !Recorded(parse, file, o)
    decreases |file| - offset
  {
    if offset < |file| {
      if StopsAt(parse, file, |file|, offset) {
        NothingAfterStop(parse, file, offset, o);
      } else {
        var entry := FirstEntry(parse, file, offset, context);
        PassLeavesNothing(parse, file, entry.next, entry.context, o);
      }
    }
  }

  ghost predicate CaughtUp(parse: Parser, file: File, rows: seq<Row>) {
    forall o :: Recorded(parse, file, o) ==> Stored(rows, o)
  }

  /** What one undisturbed ingest writes completes the file. */
  lemma WritingCatchesUp(parse: Parser, w: World, db: S.Db)
    requires Safe(parse, w) && TailUnfinished(parse, w.file)
    ensures CaughtUp(parse, w.file, Written(w.store, Prepare(parse, w.file, [], CursorOf(w.store)), db).rows)
  {
    var c := CursorOf(w.store);
    var p := Prepare(parse, w.file, [], c);
    assert w.file + [] == w.file;
    PrepareIsGood(parse, w.file, w.store.rows, c);
    WritingIsGood(parse, w.file, w.store, p, db);
    assert p.batch == Scan(parse, w.file, |w.file|, c.next, NO_CONTEXT);
    forall o | Recorded(parse, w.file, o) ensures Stored(Written(w.store, p, db).rows, o) {
      if p.batch.next <= o {
        PassLeavesNothing(parse, w.file, c.next, NO_CONTEXT, o);
      }
    }
  }

  /**
    A slow writer may move the cursor back, but from any safe world one
    undisturbed ingest leaves every finished record of the file stored, exactly
    when its replay repeats no window start or nothing was missing.
  */
  lemma OneQuietIngestCatchesUpExactly(parse: Parser, w: World)
    requires Safe(parse, w) && TailUnfinished(parse, w.file)
    ensures var p := Prepare(parse, w.file, [], CursorOf(w.store));
            CaughtUp(parse, w.file, Commit(w.rules, w.store, p).rows)
            <==> ReplayRepeatsNoStart(w.rules, w.store.db, p) || CaughtUp(parse, w.file, w.store.rows)
  {
    var p := Prepare(parse, w.file, [], CursorOf(w.store));
    CommitSucceedsExactly(w.rules, w.store, p);
    if ReplayRepeatsNoStart(w.rules, w.store.db, p) {
      var db :| Commit(w.rules, w.store, p) == Written(w.store, p, db);
      WritingCatchesUp(parse, w, db);
    }
  }

  // ----- A transcript that is never taken in -----

  /** The snapshots an ingest into an empty store would replay begin, in time, with a five-hour reset lost and found. */
  ghost predicate BeginsLostAndFound(parse: Parser, rules: Rules, event: Event) {
    && event.Visit?
    && var items := S.ReplayItems(SnapshotsAfter(rules, S.EMPTY_DB, Prepare(parse, event.file, event.more, FRESH_CURSOR)));
       |items| >= 3 && exists x, y, z :: items[..3] == L.ResetLostAndFound(x, y, z)
  }

  lemma {:induction false} LostAndFoundChangesNothing(parse: Parser, rules: Rules, event: Event)
    requires BeginsLostAndFound(parse, rules, event)
    ensures After(parse, rules, EMPTY_STORE, event) == EMPTY_STORE
  {
    var p := Prepare(parse, event.file, event.more, FRESH_CURSOR);
    var rows := SnapshotsAfter(rules, S.EMPTY_DB, p);
    var x, y, z :| S.ReplayItems(rows)[..3] == L.ResetLostAndFound(x, y, z);
    L.LostAndFoundFailsReplay(rules.config, rules.profile, rows, x, y, z);
    CommitSucceedsExactly(rules, EMPTY_STORE, p);
  }

  /** However often such a transcript is ingested, and whatever later readings it grows by, the store stays empty. */
  lemma {:induction false} NeverCatchesUp(parse: Parser, rules: Rules, events: seq<Event>)
    requires forall event :: event in events ==> BeginsLostAndFound(parse, rules, event)
    ensures IngestHistory(parse, rules, events) == EMPTY_STORE
  {
    if events != [] {
      NeverCatchesUp(parse, rules, events[..|events| - 1]);
      LostAndFoundChangesNothing(parse, rules, events[|events| - 1]);
    }
  }

  /** One byte to a line stands for one reading. */
  function CodeParser(): Parser {
    line => if |line| == 1 then Some(Relevant(Some(Reading(line[0], None, NO_CONTEXT)), [], false)) else None
  }

  function CodeDecoder(): Record -> Option<UsageModel.Observation> {
    (r: Record) =>
      if r.observation == 1 then Some(L.FiveHourReading(0, 1_000 * UsageModel.MINUTE, Some(1_100 * UsageModel.MINUTE)))
      else if r.observation == 2 then Some(L.FiveHourReading(0, 1_010 * UsageModel.MINUTE, None))
      else Some(L.FiveHourReading(0, 1_020 * UsageModel.MINUTE, Some(1_100 * UsageModel.MINUTE)))
  }

  const LOST_FILE: File := [1, NEWLINE, 2, NEWLINE, 3, NEWLINE]

  lemma CodeLine(offset: nat, code: Byte)
    requires offset + 1 < |LOST_FILE| && LOST_FILE[offset] == code != NEWLINE && LOST_FILE[offset + 1] == NEWLINE
    requires code != CARRIAGE_RETURN
    ensures LineAt(LOST_FILE, offset) == BoundedRecord([code], 2, false)
    ensures FirstEntry(CodeParser(), LOST_FILE, offset, NO_CONTEXT)
            == Nothing(offset + 2, false, NO_CONTEXT).(records := [Record(offset, code, None, NO_CONTEXT)])
    ensures !StopsAt(CodeParser(), LOST_FILE, |LOST_FILE|, offset)
  {
    var rest := LOST_FILE[offset..];
    assert rest[..1] == [code];
    ContentLenUnique(rest, 1);
  }

  lemma LostRecords()
    ensures Scan(CodeParser(), LOST_FILE, |LOST_FILE|, 0, NO_CONTEXT).records
            == [Record(0, 1, None, NO_CONTEXT), Record(2, 2, None, NO_CONTEXT), Record(4, 3, None, NO_CONTEXT)]
  {
    CodeLine(0, 1);
    CodeLine(2, 2);
    CodeLine(4, 3);
    ScanSplits(CodeParser(), LOST_FILE, |LOST_FILE|, 0, NO_CONTEXT);
    ScanSplits(CodeParser(), LOST_FILE, |LOST_FILE|, 2, NO_CONTEXT);
    ScanSplits(CodeParser(), LOST_FILE, |LOST_FILE|, 4, NO_CONTEXT);
  }

  lemma {:induction false} ThreeSnapshots(rules: Rules, a: Row, b: Row, c: Row)
    requires SnapshotOf(rules, a).Some? && SnapshotOf(rules, b).Some? && SnapshotOf(rules, c).Some?
    ensures Snapshots(rules, [a, b, c])
            == [SnapshotOf(rules, a).value, SnapshotOf(rules, b).value, SnapshotOf(rules, c).value]
  {
    assert [a, b, c][..2] == [a, b] && [a, b][..1] == [a] && [a][..0] == [];
    assert Snapshots(rules, [a]) == [SnapshotOf(rules, a).value];
    assert Snapshots(rules, [a, b]) == [SnapshotOf(rules, a).value, SnapshotOf(rules, b).value];
  }

  lemma LostPrepared()
    ensures var p := Prepare(CodeParser(), LOST_FILE, [], FRESH_CURSOR);
            && p.generation == 0
            && p.batch.records
               == [Record(0, 1, None, NO_CONTEXT), Record(2, 2, None, NO_CONTEXT), Record(4, 3, None, NO_CONTEXT)]
  {
    assert LOST_FILE + [] == LOST_FILE;
    LostRecords();
  }

  lemma CodedSnapshot(rules: Rules, offset: nat, code: nat)
    requires rules.decode == CodeDecoder() && 1 <= code <= 3
    ensures SnapshotOf(rules, Row(TranscriptId(0, offset), Record(offset, code, None, NO_CONTEXT))).Some?
    ensures SnapshotOf(rules, Row(TranscriptId(0, offset), Record(offset, code, None, NO_CONTEXT))).value
            == L.ResetLostAndFound(offset, offset, offset)[code - 1]
  {
  }

  lemma {:induction false} LostSnapshots(rules: Rules, p: Prepared)
    requires rules.decode == CodeDecoder() && p.generation == 0
    requires p.batch.records
             == [Record(0, 1, None, NO_CONTEXT), Record(2, 2, None, NO_CONTEXT), Record(4, 3, None, NO_CONTEXT)]
    ensures Snapshots(rules, Stamped(p.batch.records, p.generation)) == L.ResetLostAndFound(0, 2, 4)
  {
    var rows := Stamped(p.batch.records, p.generation);
    assert rows == [rows[0], rows[1], rows[2]];
    CodedSnapshot(rules, 0, 1);
    CodedSnapshot(rules, 2, 2);
    CodedSnapshot(rules, 4, 3);
    ThreeSnapshots(rules, rows[0], rows[1], rows[2]);
  }

  lemma LostItems()
    ensures var items := L.ResetLostAndFound(0, 2, 4);
            S.InsertAll([], items) == items && S.ReplayItems(items) == items
  {
    var items := L.ResetLostAndFound(0, 2, 4);
    L.ThreeItems(items[0], items[1], items[2]);
    L.ArrivedInOrder(items[0], items[1], items[2]);
  }

  lemma LostVisit(rules: Rules)
    requires rules.decode == CodeDecoder()
    ensures BeginsLostAndFound(CodeParser(), rules, Visit(LOST_FILE, []))
  {
    var p := Prepare(CodeParser(), LOST_FILE, [], FRESH_CURSOR);
    LostPrepared();
    LostSnapshots(rules, p);
    LostItems();
    var items := L.ResetLostAndFound(0, 2, 4);
    assert SnapshotsAfter(rules, S.EMPTY_DB, p) == items && items[..3] == items;
  }

  lemma LostIsRecorded()
    ensures Recorded(CodeParser(), LOST_FILE, 0)
  {
    CodeLine(0, 1);
    assert LastBreak(LOST_FILE) == 6;
  }

  function Visits(n: nat): seq<Event> {
    if n == 0 then [] else Visits(n - 1) + [Visit(LOST_FILE, [])]
  }

  lemma {:induction false} OnlyVisits(n: nat)
    ensures forall event :: event in Visits(n) ==> event == Visit(LOST_FILE, [])
  {
    if n > 0 {
      OnlyVisits(n - 1);
    }
  }

  /** A transcript of three complete records of which none is ever stored, however often it is ingested undisturbed. */
  lemma {:induction false} LostTranscript(cfg: UsageModel.Config, profile: S.Profile, n: nat)
    ensures Recorded(CodeParser(), LOST_FILE, 0)
    ensures IngestHistory(CodeParser(), Rules(cfg, profile, CodeDecoder()), Visits(n)) == EMPTY_STORE
  {
    var rules := Rules(cfg, profile, CodeDecoder());
    LostIsRecorded();
    LostVisit(rules);
    OnlyVisits(n);
    NeverCatchesUp(CodeParser(), rules, Visits(n));
  }
}
