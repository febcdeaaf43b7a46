/**
  The snapshots behind the windows (`src/persistence/transcripts.rs`): the
  transaction that stores a transcript's observations also stores their weekly
  snapshots, under the same ids, so the replay sees every record that is stored.
*/
module StoredSnapshots {
  import opened Options
  import opened UsageModel
  import opened TranscriptScan
  import opened Transcripts
  import Sorting
  import S = StateStore
  import T = TableInvariants
  import N = SnapshotTable
  import C = ConcurrentIngest

  /** `o` is what a stored row says of the weekly meter, under the row's id. */
  ghost predicate SnapshotFor(rules: Rules, row: Row, o: Observation) {
    && rules.decode(row.record).Some?
    && o.id.source == row.id.generation && o.id.offset == row.id.offset
    && var read := rules.decode(row.record).value;
       o.at == read.at && o.fiveHour == read.fiveHour && o.weekly == read.weekly
  }

  // ----- The batch of a commit -----

  lemma {:induction false} SnapshotsExactly(rules: Rules, rows: seq<Row>, o: Observation)
    ensures o in Snapshots(rules, rows) <==> exists row :: row in rows && SnapshotFor(rules, row, o)
  {
    if rows != [] {
      var init, last := rows[..|rows| - 1], rows[|rows| - 1];
      SnapshotsExactly(rules, init, o);
      assert rows == init + [last];
      if SnapshotOf(rules, last) == Some(o) {
        assert last in rows && SnapshotFor(rules, last, o);
      }
      if row :| row in rows && SnapshotFor(rules, row, o) {
        if row == last {
          assert SnapshotOf(rules, last).value == o;
        }
      }
    }
  }

  // ----- One history -----

  /** Whatever else writes to the database, it does not use this transcript's ids. */
  ghost predicate ElsewhereOnly(op: T.Op) {
    op.Ingest? ==> forall o :: o in op.batch ==> o.id.source < 0
  }

  /** This transcript's snapshots, sources from zero on, are those of its stored rows, each under one id. */
  ghost predicate SeesRows(rules: Rules, store: Store) {
    && N.DistinctIds(store.db.snapshots)
    && forall o: Observation :: o.id.source >= 0 ==>
         (o in store.db.snapshots <==> exists row :: row in store.rows && SnapshotFor(rules, row, o))
  }

  lemma {:induction false} InsertedElements(table: seq<Observation>, batch: seq<Observation>)
    requires N.DistinctIds(table) && N.OneRowPerId(N.Elements(table) + N.Elements(batch))
    ensures N.DistinctIds(S.InsertAll(table, batch))
    ensures forall o :: o in S.InsertAll(table, batch) <==> o in table || o in batch
  {
    N.InsertAllElements(table, batch);
    forall o ensures o in S.InsertAll(table, batch) <==> o in table || o in batch {
      assert o in S.InsertAll(table, batch) <==> o in N.Elements(S.InsertAll(table, batch));
    }
  }

  /** A fresh batch has one row for each id, together with what is stored. */
  lemma {:induction false} FreshBatch(rules: Rules, store: Store, batch: seq<Row>)
    requires SeesRows(rules, store) && DistinctRowIds(store.rows + batch)
    ensures N.OneRowPerId(N.Elements(store.db.snapshots) + N.Elements(Snapshots(rules, batch)))
  {
    var table, added := store.db.snapshots, Snapshots(rules, batch);
    forall a, b | a in N.Elements(table) + N.Elements(added) && b in N.Elements(table) + N.Elements(added) && a.id == b.id
      ensures a == b
    {
      if a in table && b in table {
        SameId(table, a, b);
      } else {
        SnapshotsExactly(rules, batch, a);
        SnapshotsExactly(rules, batch, b);
        RowsOfSameId(rules, store.rows + batch, a, b);
      }
    }
  }

  lemma SameId(table: seq<Observation>, a: Observation, b: Observation)
    requires N.DistinctIds(table) && a in table && b in table && a.id == b.id
    ensures a == b
  {
    var i :| 0 <= i < |table| && table[i] == a;
    var j :| 0 <= j < |table| && table[j] == b;
  }

  lemma RowsOfSameId(rules: Rules, rows: seq<Row>, a: Observation, b: Observation)
    requires DistinctRowIds(rows) && a.id == b.id
    requires exists row :: row in rows && SnapshotFor(rules, row, a)
    requires exists row :: row in rows && SnapshotFor(rules, row, b)
    ensures a == b
  {
    var x :| x in rows && SnapshotFor(rules, x, a);
    var y :| y in rows && SnapshotFor(rules, y, b);
    var i :| 0 <= i < |rows| && rows[i] == x;
    var j :| 0 <= j < |rows| && rows[j] == y;
    assert x.id == y.id;
  }

  lemma {:induction false} CommitSees(rules: Rules, store: Store, batch: seq<Row>, after: Store)
    requires SeesRows(rules, store) && DistinctRowIds(store.rows + batch)
    requires after.rows == store.rows + batch
    requires after.db.snapshots == S.InsertAll(store.db.snapshots, Snapshots(rules, batch))
    ensures SeesRows(rules, after)
  {
    FreshBatch(rules, store, batch);
    InsertedElements(store.db.snapshots, Snapshots(rules, batch));
    forall o: Observation | o.id.source >= 0
      ensures o in after.db.snapshots <==> exists row :: row in after.rows && SnapshotFor(rules, row, o)
    {
      SnapshotsExactly(rules, batch, o);
      if row :| row in store.rows && SnapshotFor(rules, row, o) {
        assert row in after.rows;
      }
      if row :| row in batch && SnapshotFor(rules, row, o) {
        assert row in after.rows;
      }
    }
  }

  lemma {:induction false} ElsewhereSees(rules: Rules, store: Store, op: T.Op)
    requires SeesRows(rules, store) && ElsewhereOnly(op)
    ensures SeesRows(rules, store.(db := T.RunOp(rules.config, store.db, op)))
  {
    var after := T.RunOp(rules.config, store.db, op);
    if op.Ingest? {
      var sorted := Sorting.Sort(op.batch, AtMost);
      N.ItemsAreRows(op.batch);
      N.InsertAllElements(store.db.snapshots, sorted);
      var inserted := S.InsertAll(store.db.snapshots, sorted);
      forall o: Observation | o.id.source >= 0 ensures o in inserted <==> o in store.db.snapshots {
        assert o in inserted <==> o in N.Elements(inserted);
        assert o !in sorted;
        assert o in N.Elements(inserted) ==> o in N.Elements(store.db.snapshots) + N.Elements(sorted);
      }
      assert after.snapshots == inserted || after == store.db;
    }
  }

  ghost predicate ElsewhereIsForeign(events: seq<Event>) {
    forall event :: event in events && event.Elsewhere? ==> ElsewhereOnly(event.op)
  }

  /**
    Over every history of appends, truncations, replacements, ingests of other
    sources and manual resets, the snapshots the windows are replayed from are,
    for this transcript, exactly the weekly readings of its stored rows.
  */
  lemma {:induction false} ReplaySeesEveryRow(parse: Parser, rules: Rules, events: seq<Event>)
    requires ElsewhereIsForeign(events)
    ensures SeesRows(rules, IngestHistory(parse, rules, events))
  {
    if events != [] {
      var init, event := events[..|events| - 1], events[|events| - 1];
      var store := IngestHistory(parse, rules, init);
      assert forall e :: e in init ==> e in events;
      ReplaySeesEveryRow(parse, rules, init);
      if event.Visit? {
        VisitSees(parse, rules, init, event);
      } else {
        assert event in events;
        ElsewhereSees(rules, store, event.op);
      }
    }
  }

  lemma {:induction false} VisitSees(parse: Parser, rules: Rules, init: seq<Event>, event: Event)
    requires event.Visit? && SeesRows(rules, IngestHistory(parse, rules, init))
    ensures SeesRows(rules, After(parse, rules, IngestHistory(parse, rules, init), event))
  {
    var store := IngestHistory(parse, rules, init);
    var p := Prepare(parse, event.file, event.more, CursorOf(store));
    HistoryStaysBehind(parse, rules, init);
    IngestInsertsAll(parse, rules, store, event.file, event.more);
    CommitSucceedsExactly(rules, store, p);
    if ReplayRepeatsNoStart(rules, store.db, p) {
      HistoryHasDistinctIds(parse, rules, init);
      InsertRowsDistinct(store.rows, Stamped(p.batch.records, p.generation));
      CommitSees(rules, store, Stamped(p.batch.records, p.generation), Commit(rules, store, p));
    }
  }

  // ----- Any number of writers -----

  /** Every stored row with a weekly reading has a snapshot under its id. */
  ghost predicate RowsHaveSnapshots(rules: Rules, store: Store) {
    forall row :: row in store.rows && rules.decode(row.record).Some? ==>
      S.HasId(store.db.snapshots, ObservationId(row.id.generation, row.id.offset))
  }

  lemma {:induction false} InsertHasIds(table: seq<Observation>, batch: seq<Observation>, id: ObservationId)
    ensures S.HasId(S.InsertAll(table, batch), id) <==> S.HasId(table, id) || S.HasId(batch, id)
  {
    if batch != [] {
      var n := |batch| - 1;
      InsertHasIds(table, batch[..n], id);
      InsertHasId(S.InsertAll(table, batch[..n]), batch[n], id);
      if k :| 0 <= k < |batch| && batch[k].id == id {
        assert k < n ==> batch[..n][k].id == id;
      }
      if k :| 0 <= k < n && batch[..n][k].id == id {
        assert batch[k].id == id;
      }
    }
  }

  lemma InsertHasId(table: seq<Observation>, row: Observation, id: ObservationId)
    ensures S.HasId(S.InsertOrIgnore(table, row), id) <==> S.HasId(table, id) || row.id == id
  {
    var more := S.InsertOrIgnore(table, row);
    if k :| 0 <= k < |table| && table[k].id == id {
      assert more[k].id == id;
    }
    if row.id == id && !S.HasId(table, id) {
      assert more[|table|].id == id;
    }
  }

  lemma {:induction false} InsertedRowsFrom(rows: seq<Row>, batch: seq<Row>)
    ensures forall row :: row in InsertRows(rows, batch) ==> row in rows || row in batch
  {
    if batch != [] {
      InsertedRowsFrom(rows, batch[..|batch| - 1]);
    }
  }

  lemma {:induction false} CommitHasSnapshots(rules: Rules, store: Store, p: Prepared)
    requires RowsHaveSnapshots(rules, store)
    ensures RowsHaveSnapshots(rules, Commit(rules, store, p))
  {
    var after, batch := Commit(rules, store, p), Stamped(p.batch.records, p.generation);
    InsertedRowsFrom(store.rows, batch);
    if after != store {
      forall row | row in after.rows && rules.decode(row.record).Some?
        ensures S.HasId(after.db.snapshots, ObservationId(row.id.generation, row.id.offset))
      {
        var id := ObservationId(row.id.generation, row.id.offset);
        InsertHasIds(store.db.snapshots, Snapshots(rules, batch), id);
        if row in batch {
          var o := rules.decode(row.record).value.(id := id);
          assert SnapshotFor(rules, row, o);
          SnapshotsExactly(rules, batch, o);
          var k :| 0 <= k < |Snapshots(rules, batch)| && Snapshots(rules, batch)[k] == o;
          assert Snapshots(rules, batch)[k].id == id;
        }
      }
    }
  }

  lemma {:induction false} OpKeepsIds(rules: Rules, db: S.Db, op: T.Op, id: ObservationId)
    requires S.HasId(db.snapshots, id)
    ensures S.HasId(T.RunOp(rules.config, db, op).snapshots, id)
  {
    if op.Ingest? {
      InsertHasIds(db.snapshots, Sorting.Sort(op.batch, AtMost), id);
    }
  }

  /**
    However many writers interleave their reads and commits with appends, other
    ingests and manual resets, safely or not: no row with a weekly reading is ever
    stored without a snapshot under its id for the replay to see.
  */
  lemma {:induction false} NoRowWithoutSnapshot(parse: Parser, rules: Rules, writers: nat, actions: seq<C.Action>)
    ensures RowsHaveSnapshots(rules, C.RunWorld(parse, rules, writers, actions).store)
    ensures C.RunWorld(parse, rules, writers, actions).rules == rules
  {
    if actions != [] {
      var init, action := actions[..|actions| - 1], actions[|actions| - 1];
      NoRowWithoutSnapshot(parse, rules, writers, init);
      var w := C.RunWorld(parse, rules, writers, init);
      match action {
        case CommitBatch(i) =>
          if i < |w.writers| && w.writers[i].HasBatch? {
            CommitHasSnapshots(rules, w.store, w.writers[i].prepared);
          }
        case Elsewhere(op) =>
          forall row | row in w.store.rows && rules.decode(row.record).Some?
            ensures S.HasId(T.RunOp(rules.config, w.store.db, op).snapshots, ObservationId(row.id.generation, row.id.offset))
          {
            OpKeepsIds(rules, w.store.db, op, ObservationId(row.id.generation, row.id.offset));
          }
        case _ =>
      }
    }
  }
}
