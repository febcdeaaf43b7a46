/**
  The step system and the sequential ingest are one model: a writer that takes
  its steps alone, one line at a time, commits what one sequential ingest does.
*/
module SoloWriter {
  import opened Options
  import opened TranscriptScan
  import opened Transcripts
  import opened ConcurrentIngest

  lemma {:induction false} RunOneMore(parse: Parser, w: World, actions: seq<Action>, a: Action)
    ensures RunFrom(parse, w, actions + [a]) == Act(parse, RunFrom(parse, w, actions), a)
  {
    assert (actions + [a])[..|actions|] == actions;
  }

  lemma {:induction false} RunFirst(parse: Parser, w: World, a: Action, actions: seq<Action>)
    ensures RunFrom(parse, w, [a] + actions) == RunFrom(parse, Act(parse, w, a), actions)
  {
    if actions == [] {
      assert [a] + actions == [a] && [a][..0] == [];
      assert RunFrom(parse, w, [a][..0]) == w;
    } else {
      var init, last := actions[..|actions| - 1], actions[|actions| - 1];
      RunFirst(parse, w, a, init);
      assert [a] + actions == [a] + init + [last];
      RunOneMore(parse, w, [a] + init, last);
      assert init + [last] == actions;
    }
  }

  /** The writer at work on the file, its progress on the way to the whole pass. */
  ghost predicate AtWork(parse: Parser, w: World, who: nat, generation: nat, cursor: nat, b: Batch) {
    && who < |w.writers| && w.writers[who] == Scanning(generation, |w.file|, b)
    && OnTheWay(parse, w.file, |w.file|, cursor, b)
  }

  function WithWriter(w: World, who: nat, writer: Writer): World
    requires who < |w.writers|
  {
    w.(writers := w.writers[who := writer])
  }

  /** One read either ends the pass or makes progress. */
  lemma OneRead(parse: Parser, w: World, who: nat, generation: nat, cursor: nat, b: Batch)
    requires AtWork(parse, w, who, generation, cursor, b)
    ensures var (next, done) := ReadOn(parse, w.file, |w.file|, b);
            if done then
              && next == Ingested(parse, w.file, |w.file|, cursor)
              && Act(parse, w, ReadNext(who))
                 == WithWriter(w, who, HasBatch(WithMarker(w.file, generation, Ingested(parse, w.file, |w.file|, cursor))))
            else
              && b.next < next.next <= |w.file|
              && Act(parse, w, ReadNext(who)) == WithWriter(w, who, Scanning(generation, |w.file|, next))
              && OnTheWay(parse, w.file, |w.file|, cursor, next)
  {
    if b.next == |w.file| {
      OnTheWayAtEnd(parse, w.file, |w.file|, cursor, b);
    } else if StopsAt(parse, w.file, |w.file|, b.next) {
      OnTheWayTail(parse, w.file, |w.file|, cursor, b);
    } else {
      OnTheWayEntry(parse, w.file, |w.file|, cursor, b, FirstEntry(parse, w.file, b.next, b.context));
    }
  }

  lemma {:induction false} ReadToEnd(parse: Parser, w: World, who: nat, generation: nat, cursor: nat, b: Batch)
    returns (lines: seq<Action>)
    requires AtWork(parse, w, who, generation, cursor, b)
    ensures forall a :: a in lines ==> a == ReadNext(who)
    ensures RunFrom(parse, w, lines)
            == WithWriter(w, who, HasBatch(WithMarker(w.file, generation, Ingested(parse, w.file, |w.file|, cursor))))
    decreases |w.file| - b.next
  {
    OneRead(parse, w, who, generation, cursor, b);
    var (next, done) := ReadOn(parse, w.file, |w.file|, b);
    if done {
      lines := [ReadNext(who)];
      RunFirst(parse, w, ReadNext(who), []);
      assert [ReadNext(who)] + [] == lines;
    } else {
      var after := Act(parse, w, ReadNext(who));
      var rest := ReadToEnd(parse, after, who, generation, cursor, next);
      lines := [ReadNext(who)] + rest;
      RunFirst(parse, w, ReadNext(who), rest);
    }
  }

  lemma OpenedIsOnTheWay(parse: Parser, file: File, cursor: CursorRow)
    ensures var (next, generation) := ResumePoint(file, cursor);
            && Opened(file, cursor).generation == generation
            && OnTheWay(parse, file, |file|, next, Opened(file, cursor).batch)
            && WithMarker(file, generation, Ingested(parse, file, |file|, next)) == Prepare(parse, file, [], cursor)
  {
    var (next, generation) := ResumePoint(file, cursor);
    var start := StartOffset(|file|, next);
    NothingPlus(start, false, NO_CONTEXT, Scan(parse, file, |file|, start, NO_CONTEXT));
    assert file + [] == file;
  }

  lemma {:induction false} AfterOpening(parse: Parser, w: World, one: World, two: World, a: Action, b: Action, lines: seq<Action>)
    requires Act(parse, w, a) == one && Act(parse, one, b) == two
    ensures RunFrom(parse, w, [a, b] + lines) == RunFrom(parse, two, lines)
  {
    RunFirst(parse, w, a, [b] + lines);
    RunFirst(parse, one, b, lines);
    assert [a] + ([b] + lines) == [a, b] + lines;
  }

  lemma CommitsAlone(parse: Parser, w: World, who: nat, p: Prepared)
    requires who < |w.writers| && w.writers[who].Idle?
    ensures Act(parse, WithWriter(w, who, HasBatch(p)), CommitBatch(who)) == w.(store := Commit(w.rules, w.store, p))
  {
    assert w.writers[who := HasBatch(p)][who := Idle] == w.writers;
  }

  /**
    From any world, an idle writer that reads the cursor, opens the file, reads to
    the end and commits, with nothing in between, leaves the store of one
    sequential ingest, and itself idle again.
  */
  lemma {:induction false} AloneIsOneIngest(parse: Parser, w: World, who: nat) returns (lines: seq<Action>)
    requires who < |w.writers| && w.writers[who].Idle?
    ensures forall a :: a in lines ==> a == ReadNext(who)
    ensures RunFrom(parse, w, [ReadCursor(who), OpenFile(who)] + lines + [CommitBatch(who)])
            == w.(store := Commit(w.rules, w.store, Prepare(parse, w.file, [], CursorOf(w.store))))
  {
    var cursor := CursorOf(w.store);
    var (next, generation) := ResumePoint(w.file, cursor);
    var one, two := WithWriter(w, who, HasCursor(cursor)), WithWriter(w, who, Opened(w.file, cursor));
    OpenedIsOnTheWay(parse, w.file, cursor);
    lines := ReadToEnd(parse, two, who, generation, next, Opened(w.file, cursor).batch);
    assert two.writers[who := HasBatch(Prepare(parse, w.file, [], cursor))]
           == w.writers[who := HasBatch(Prepare(parse, w.file, [], cursor))];
    AfterOpening(parse, w, one, two, ReadCursor(who), OpenFile(who), lines);
    RunOneMore(parse, w, [ReadCursor(who), OpenFile(who)] + lines, CommitBatch(who));
    CommitsAlone(parse, w, who, Prepare(parse, w.file, [], cursor));
  }
}
