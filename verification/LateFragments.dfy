/**
  What a writer does with a fragment that arrives after the file's length was
  sampled, and exactly when a run of writers can lose a record.
*/
module LateFragments {
  import opened Options
  import opened LineReader
  import opened TranscriptScan
  import opened Resumability
  import opened Transcripts
  import opened ConcurrentIngest
  import S = StateStore

  /** The writer reads to the end and commits, and then the line is completed. */
  function FinishAndCommit(who: nat, completion: seq<Byte>): seq<Action> {
    [ReadNext(who), ReadNext(who), CommitBatch(who), Append(completion)]
  }

  lemma {:induction false} RunFour(parse: Parser, w: World, a: Action, b: Action, c: Action, d: Action)
    ensures RunFrom(parse, w, [a, b, c, d]) == Act(parse, Act(parse, Act(parse, Act(parse, w, a), b), c), d)
  {
    var all := [a, b, c, d];
    assert all[..0] == [] && all[..4] == all;
    RunOneMore(parse, w, all, 0);
    RunOneMore(parse, w, all, 1);
    RunOneMore(parse, w, all, 2);
    RunOneMore(parse, w, all, 3);
  }

  /** A record of the completed file below the committed cursor that no row stores. */
  ghost predicate Loses(parse: Parser, w: World, offset: nat) {
    offset < CursorOf(w.store).next && Recorded(parse, w.file, offset) && !Stored(w.store.rows, offset)
  }

  lemma {:induction false} OpenRecord(rest: seq<Byte>)
    requires ContentLen(rest) == |rest| <= MAX_RECORD
    ensures RecordAt(rest) == BoundedRecord(rest, |rest|, false)
  {
    assert rest[..|rest|] == rest;
  }

  lemma FragmentRecord(file: File)
    requires |file| - LastBreak(file) <= MAX_RECORD
    ensures LineAt(file, LastBreak(file)) == BoundedRecord(file[LastBreak(file)..], |file| - LastBreak(file), false)
  {
    UnfinishedLine(file);
    OpenRecord(file[LastBreak(file)..]);
  }

  lemma FragmentLine(parse: Parser, file: File, context: Context)
    requires LastBreak(file) < |file| && TailUnfinished(parse, file)
    ensures forall n: nat :: StopsAt(parse, file, n, LastBreak(file)) <==> n == |file|
    ensures FirstEntry(parse, file, LastBreak(file), context)
            == Nothing(|file|, false, context).(malformed := 1)
  {
    FragmentRecord(file);
  }

  lemma FragmentIsConsumed(parse: Parser, file: File, fileLen: nat, b: Batch)
    requires b.next == LastBreak(file) < |file| && TailUnfinished(parse, file)
    ensures fileLen == |file| ==> ReadOn(parse, file, fileLen, b) == (b.(incompleteTail := true), true)
    ensures fileLen != |file| ==>
              var (once, done) := ReadOn(parse, file, fileLen, b);
              !done && once.next == |file| && once.records == b.records
              && ReadOn(parse, file, fileLen, once) == (once, true)
  {
    FragmentLine(parse, file, b.context);
  }

  /** The commit of such a batch stores nothing at the fragment's offset. */
  lemma CommitLeavesOut(parse: Parser, w: World, p: Prepared, offset: nat)
    requires GoodRows(parse, w.file, w.store.rows) && LastBreak(w.file) <= offset
    requires forall r :: r in p.batch.records ==> Genuine(parse, w.file, r)
    ensures !Stored(Commit(w.rules, w.store, p).rows, offset)
  {
    var batch := Stamped(p.batch.records, p.generation);
    InsertedAreStored(w.store.rows, batch);
    forall row | row in Commit(w.rules, w.store, p).rows ensures row.id.offset < LastBreak(w.file) {
      if row !in w.store.rows {
        var i :| 0 <= i < |batch| && batch[i] == row;
        assert p.batch.records[i] in p.batch.records;
      }
    }
  }

  /** The batch that two reads make of such a fragment. */
  lemma FragmentBatch(parse: Parser, file: File, writer: Writer) returns (p: Prepared)
    requires writer.Scanning? && writer.batch.next == LastBreak(file) < |file| && TailUnfinished(parse, file)
    ensures p.batch.records == writer.batch.records
    ensures p.batch.next == if writer.fileLen == |file| then LastBreak(file) else |file|
    ensures var once := AfterRead(parse, file, writer);
            once == HasBatch(p) || (once.Scanning? && AfterRead(parse, file, once) == HasBatch(p))
  {
    FragmentIsConsumed(parse, file, writer.fileLen, writer.batch);
    var once := AfterRead(parse, file, writer);
    p := if once.HasBatch? then once.prepared else AfterRead(parse, file, once).prepared;
  }

  lemma {:induction false} FinishedAndCommitted(parse: Parser, w: World, who: nat, completion: seq<Byte>, p: Prepared)
    requires who < |w.writers| && w.writers[who].Scanning?
    requires var once := AfterRead(parse, w.file, w.writers[who]);
             once == HasBatch(p) || (once.Scanning? && AfterRead(parse, w.file, once) == HasBatch(p))
    ensures var after := RunFrom(parse, w, FinishAndCommit(who, completion));
            after.file == w.file + completion && after.store == Commit(w.rules, w.store, p)
  {
    RunFour(parse, w, ReadNext(who), ReadNext(who), CommitBatch(who), Append(completion));
  }

  /** The replay of what is stored and what the writer has read so far repeats no start. */
  ghost predicate BatchFits(w: World, who: nat)
    requires who < |w.writers| && w.writers[who].Scanning?
  {
    ReplayRepeatsNoStart(w.rules, w.store.db, Prepared(w.writers[who].batch, w.writers[who].generation, []))
  }

  /** Whether a commit goes through depends on its records only. */
  lemma SameRecordsSameFate(rules: Rules, db: S.Db, p: Prepared, q: Prepared)
    requires p.batch.records == q.batch.records && p.generation == q.generation
    ensures ReplayRepeatsNoStart(rules, db, p) <==> ReplayRepeatsNoStart(rules, db, q)
  {
  }

  lemma CommittedCursor(w: World, p: Prepared)
    ensures CursorOf(Commit(w.rules, w.store, p)).next
            == if ReplayRepeatsNoStart(w.rules, w.store.db, p) then p.batch.next else CursorOf(w.store).next
  {
    CommitSucceedsExactly(w.rules, w.store, p);
    if ReplayRepeatsNoStart(w.rules, w.store.db, p) {
      var db :| Commit(w.rules, w.store, p) == Written(w.store, p, db);
    }
  }

  /**
    When a writer reaches a fragment that is not yet a record, and the line is
    completed to one after its commit, the record is lost exactly if the file
    had grown since the writer sampled its length and the commit goes through.
  */
  lemma {:induction false} LateFragmentIsLostExactly(parse: Parser, w: World, who: nat, completion: seq<Byte>)
    requires Safe(parse, w) && who < |w.writers| && w.writers[who].Scanning?
    requires w.writers[who].batch.next == LastBreak(w.file) < |w.file| && TailUnfinished(parse, w.file)
    requires Recorded(parse, w.file + completion, LastBreak(w.file))
    ensures Loses(parse, RunFrom(parse, w, FinishAndCommit(who, completion)), LastBreak(w.file))
            <==> w.writers[who].fileLen != |w.file| && BatchFits(w, who)
  {
    var writer := w.writers[who];
    assert GoodWriter(parse, w.file, w.store.rows, writer);
    var p := FragmentBatch(parse, w.file, writer);
    FinishedAndCommitted(parse, w, who, completion, p);
    CommitLeavesOut(parse, w, p, LastBreak(w.file));
    SameRecordsSameFate(w.rules, w.store.db, p, Prepared(writer.batch, writer.generation, []));
    CommittedCursor(w, p);
    LastBreakBounds(w.file, CursorOf(w.store).next);
  }

  lemma EmptyReplayFits(rules: Rules, p: Prepared)
    requires p.batch.records == []
    ensures ReplayRepeatsNoStart(rules, S.EMPTY_DB, p)
  {
    assert Stamped(p.batch.records, p.generation) == [];
    assert SnapshotsAfter(rules, S.EMPTY_DB, p) == [];
  }

  /**
    The shortest such run: the file is opened empty, a fragment arrives, is read
    and committed as malformed, and completes to a record that is never stored.
  */
  lemma FragmentAfterSampleIsLost(parse: Parser, rules: Rules, fragment: seq<Byte>, completion: seq<Byte>)
    requires fragment != [] && LastBreak(fragment) == 0 && TailUnfinished(parse, fragment)
    requires Recorded(parse, fragment + completion, 0)
    ensures var w := RunFrom(parse, Start(rules, 1), [ReadCursor(0), OpenFile(0), Append([]), Append(fragment)]);
            && Safe(parse, w)
            && Loses(parse, RunFrom(parse, w, FinishAndCommit(0, completion)), 0)
  {
    RunFour(parse, Start(rules, 1), ReadCursor(0), OpenFile(0), Append([]), Append(fragment));
    var w0 := Start(rules, 1);
    var w1 := Act(parse, w0, ReadCursor(0));
    var w2 := Act(parse, w1, OpenFile(0));
    var w3 := Act(parse, w2, Append([]));
    var w4 := Act(parse, w3, Append(fragment));
    StartIsSafe(parse, rules, 1);
    ActKeepsSafe(parse, w0, ReadCursor(0));
    ActKeepsSafe(parse, w1, OpenFile(0));
    ActKeepsSafe(parse, w2, Append([]));
    ActKeepsSafe(parse, w3, Append(fragment));
    assert w4.file == fragment;
    assert w1.writers[0] == HasCursor(FRESH_CURSOR);
    assert w4.writers[0] == Opened([], FRESH_CURSOR);
    EmptyReplayFits(rules, Prepared(w4.writers[0].batch, w4.writers[0].generation, []));
    LateFragmentIsLostExactly(parse, w4, 0, completion);
  }

  // ----- Exactly when a run can lose a record -----

  ghost predicate LosesSome(parse: Parser, w: World) {
    exists offset :: Loses(parse, w, offset)
  }

  /** No action of an extension makes a writer consume a line that is still being written. */
  ghost predicate SafeFrom(parse: Parser, w: World, extension: seq<Action>) {
    forall k :: 0 <= k < |extension| ==> ActsSafely(parse, RunFrom(parse, w, extension[..k]), extension[k])
  }

  /** However the world goes on with safe reads, no record is lost. */
  ghost predicate NeverLoses(parse: Parser, w: World) {
    forall extension :: SafeFrom(parse, w, extension) ==> !LosesSome(parse, RunFrom(parse, w, extension))
  }

  /** The reads of a run as the program meets them: a fragment is the start of a record not yet complete. */
  ghost predicate FragmentsGrow(parse: Parser, w: World, a: Action) {
    a.ReadNext? && a.who < |w.writers| && w.writers[a.who].Scanning? ==>
      && TailUnfinished(parse, w.file)
      && (LastBreak(w.file) < |w.file| ==> exists s :: Recorded(parse, w.file + s, LastBreak(w.file)))
  }

  /** A batch that reads on past a fragment can be committed. */
  ghost predicate UnsafeBatchFits(parse: Parser, w: World, a: Action) {
    !ActsSafely(parse, w, a) ==> BatchFits(w, a.who)
  }

  ghost predicate Ordinary(parse: Parser, rules: Rules, writers: nat, actions: seq<Action>) {
    forall k :: 0 <= k < |actions| ==>
      && FragmentsGrow(parse, RunWorld(parse, rules, writers, actions[..k]), actions[k])
      && UnsafeBatchFits(parse, RunWorld(parse, rules, writers, actions[..k]), actions[k])
  }

  lemma {:induction false} SafeOnwards(parse: Parser, w: World, extension: seq<Action>)
    requires Safe(parse, w) && SafeFrom(parse, w, extension)
    ensures Safe(parse, RunFrom(parse, w, extension))
  {
    if extension != [] {
      var n := |extension| - 1;
      assert forall k :: 0 <= k < n ==> extension[..n][..k] == extension[..k];
      SafeOnwards(parse, w, extension[..n]);
      assert ActsSafely(parse, RunFrom(parse, w, extension[..n]), extension[n]);
      ActKeepsSafe(parse, RunFrom(parse, w, extension[..n]), extension[n]);
    }
  }

  lemma SafeNeverLoses(parse: Parser, w: World)
    requires Safe(parse, w)
    ensures NeverLoses(parse, w)
  {
    forall extension | SafeFrom(parse, w, extension) ensures !LosesSome(parse, RunFrom(parse, w, extension)) {
      SafeOnwards(parse, w, extension);
    }
  }

  lemma {:induction false} RunThree(parse: Parser, w: World, a: Action, b: Action, c: Action)
    ensures RunFrom(parse, w, [a, b, c]) == Act(parse, Act(parse, Act(parse, w, a), b), c)
    ensures RunFrom(parse, w, [a, b, c][..2]) == Act(parse, Act(parse, w, a), b)
    ensures RunFrom(parse, w, [a, b, c][..1]) == Act(parse, w, a) && RunFrom(parse, w, [a, b, c][..0]) == w
  {
    var all := [a, b, c];
    assert all[..0] == [] && all[..3] == all;
    RunOneMore(parse, w, all, 0);
    RunOneMore(parse, w, all, 1);
    RunOneMore(parse, w, all, 2);
  }

  /** A writer that reads on past a fragment which arrived after it sampled the length. */
  ghost predicate AtLateFragment(parse: Parser, w: World, who: nat) {
    && who < |w.writers| && w.writers[who].Scanning?
    && w.writers[who].batch.next == LastBreak(w.file) < |w.file|
    && TailUnfinished(parse, w.file)
    && w.writers[who].fileLen != |w.file|
  }

  lemma UnsafeIsLate(parse: Parser, w: World, a: Action)
    requires Safe(parse, w) && !ActsSafely(parse, w, a) && FragmentsGrow(parse, w, a)
    ensures a == ReadNext(a.who) && AtLateFragment(parse, w, a.who)
    ensures exists s :: Recorded(parse, w.file + s, LastBreak(w.file))
  {
    var writer := w.writers[a.who];
    assert GoodWriter(parse, w.file, w.store.rows, writer);
    ReadIsSafeExactly(parse, w.file, writer.fileLen, writer.batch.next);
    LastBreakBounds(w.file, writer.batch.next);
  }

  /** What is left to do after the fragment was consumed. */
  function Rest(who: nat, completion: seq<Byte>): seq<Action> {
    [ReadNext(who), CommitBatch(who), Append(completion)]
  }

  lemma {:induction false} RestLoses(parse: Parser, w: World, who: nat, completion: seq<Byte>)
    requires Safe(parse, w) && AtLateFragment(parse, w, who) && BatchFits(w, who)
    requires Recorded(parse, w.file + completion, LastBreak(w.file))
    ensures LosesSome(parse, RunFrom(parse, Act(parse, w, ReadNext(who)), Rest(who, completion)))
  {
    LateFragmentIsLostExactly(parse, w, who, completion);
    RunFour(parse, w, ReadNext(who), ReadNext(who), CommitBatch(who), Append(completion));
    RunThree(parse, Act(parse, w, ReadNext(who)), ReadNext(who), CommitBatch(who), Append(completion));
    assert Loses(parse, RunFrom(parse, w, FinishAndCommit(who, completion)), LastBreak(w.file));
  }

  lemma {:induction false} RestIsSafe(parse: Parser, w: World, who: nat, completion: seq<Byte>)
    requires AtLateFragment(parse, w, who)
    ensures SafeFrom(parse, Act(parse, w, ReadNext(who)), Rest(who, completion))
  {
    var next, rest := Act(parse, w, ReadNext(who)), Rest(who, completion);
    FragmentIsConsumed(parse, w.file, w.writers[who].fileLen, w.writers[who].batch);
    assert rest[..0] == [];
    forall k | 0 <= k < |rest| ensures ActsSafely(parse, RunFrom(parse, next, rest[..k]), rest[k]) {
      if k == 0 {
        assert ActsSafely(parse, next, ReadNext(who));
      }
    }
  }

  /** An unsafe read of such a fragment leads to a world from which a record can be lost. */
  lemma UnsafeReadCanLose(parse: Parser, w: World, a: Action)
    requires Safe(parse, w) && !ActsSafely(parse, w, a)
    requires FragmentsGrow(parse, w, a) && UnsafeBatchFits(parse, w, a)
    ensures !NeverLoses(parse, Act(parse, w, a))
  {
    UnsafeIsLate(parse, w, a);
    var s :| Recorded(parse, w.file + s, LastBreak(w.file));
    RestLoses(parse, w, a.who, s);
    RestIsSafe(parse, w, a.who, s);
  }

  /** The first unsafe read of a run that has one. */
  lemma {:induction false} FirstUnsafe(parse: Parser, rules: Rules, writers: nat, actions: seq<Action>) returns (k: nat)
    requires !ReadsAreSafe(parse, rules, writers, actions)
    ensures k < |actions| && ReadsAreSafe(parse, rules, writers, actions[..k])
    ensures !ActsSafely(parse, RunWorld(parse, rules, writers, actions[..k]), actions[k])
  {
    var n := |actions| - 1;
    if ReadsAreSafe(parse, rules, writers, actions[..n]) {
      k := n;
      forall m | 0 <= m < n ensures ActsSafely(parse, RunWorld(parse, rules, writers, actions[..m]), actions[m]) {
        assert actions[..n][..m] == actions[..m];
        assert ActsSafely(parse, RunWorld(parse, rules, writers, actions[..n][..m]), actions[..n][m]);
      }
    } else {
      k := FirstUnsafe(parse, rules, writers, actions[..n]);
      assert actions[..n][..k] == actions[..k];
    }
  }

  /**
    From no point of a run can a record be lost, however it goes on with safe
    reads, exactly when the run's own reads are safe.
  */
  lemma {:induction false} NothingCanBeLostExactly(parse: Parser, rules: Rules, writers: nat, actions: seq<Action>)
    requires Ordinary(parse, rules, writers, actions)
    ensures (forall k :: 0 <= k <= |actions| ==> NeverLoses(parse, RunWorld(parse, rules, writers, actions[..k])))
            <==> ReadsAreSafe(parse, rules, writers, actions)
  {
    if ReadsAreSafe(parse, rules, writers, actions) {
      forall k | 0 <= k <= |actions| ensures NeverLoses(parse, RunWorld(parse, rules, writers, actions[..k])) {
        ReadsAreSafeBefore(parse, rules, writers, actions, k);
        EveryInterleavingIsSafe(parse, rules, writers, actions[..k]);
        SafeNeverLoses(parse, RunWorld(parse, rules, writers, actions[..k]));
      }
    } else {
      var k := FirstUnsafe(parse, rules, writers, actions);
      EveryInterleavingIsSafe(parse, rules, writers, actions[..k]);
      UnsafeReadCanLose(parse, RunWorld(parse, rules, writers, actions[..k]), actions[k]);
      RunOneMore(parse, Start(rules, writers), actions, k);
      assert !NeverLoses(parse, RunWorld(parse, rules, writers, actions[..k + 1]));
    }
  }
}
