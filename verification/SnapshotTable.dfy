/** The snapshots table as a set of rows: what insert-or-ignore and `ORDER BY` do to it. */
module SnapshotTable {
  import opened Options
  import opened UsageModel
  import opened Sorting
  import opened StateStore

  ghost predicate DistinctIds(table: seq<Observation>) {
    forall i, j :: 0 <= i < j < |table| ==> table[i].id != table[j].id
  }

  /** One id never stands for two different observations. */
  ghost predicate OneRowPerId(all: set<Observation>) {
    forall a, b :: a in all && b in all && a.id == b.id ==> a == b
  }

  function Elements(s: seq<Observation>): set<Observation> {
    set o | o in s
  }

  lemma InsertOneElement(table: seq<Observation>, row: Observation)
    requires DistinctIds(table)
    ensures var r := InsertOrIgnore(table, row);
            && DistinctIds(r)
            && table <= r
            && Elements(r) <= Elements(table) + {row}
            && (OneRowPerId(Elements(table) + {row}) ==> Elements(r) == Elements(table) + {row})
  {
    if HasId(table, row.id) {
      var i :| 0 <= i < |table| && table[i].id == row.id;
      assert table[i] in Elements(table);
    }
  }

  lemma {:induction false} InsertAllElements(table: seq<Observation>, batch: seq<Observation>)
    requires DistinctIds(table)
    ensures var r := InsertAll(table, batch);
            && DistinctIds(r)
            && table <= r
            && Elements(r) <= Elements(table) + Elements(batch)
            && (OneRowPerId(Elements(table) + Elements(batch)) ==> Elements(r) == Elements(table) + Elements(batch))
  {
    if batch == [] {
    } else {
      var prefix, last := batch[..|batch| - 1], batch[|batch| - 1];
      InsertAllElements(table, prefix);
      InsertOneElement(InsertAll(table, prefix), last);
      assert batch == prefix + [last];
      assert Elements(batch) == Elements(prefix) + {last};
      assert Elements(table) + Elements(batch) == Elements(table) + Elements(prefix) + {last};
    }
  }

  lemma AtMostIsTotal()
    ensures IsTotalPreorder(AtMost)
  {
  }

  lemma {:induction false} CountIsOne(table: seq<Observation>, x: Observation)
    requires DistinctIds(table)
    ensures multiset(table)[x] == if x in table then 1 else 0
  {
    if table == [] {
    } else {
      CountIsOne(table[1..], x);
      assert table == [table[0]] + table[1..];
    }
  }

  lemma SameRowsSameMultiset(a: seq<Observation>, b: seq<Observation>)
    requires DistinctIds(a) && DistinctIds(b) && Elements(a) == Elements(b)
    ensures multiset(a) == multiset(b)
  {
    forall x ensures multiset(a)[x] == multiset(b)[x] {
      CountIsOne(a, x);
      CountIsOne(b, x);
      assert x in a <==> x in Elements(a);
      assert x in b <==> x in Elements(b);
    }
  }

  lemma SameRowAtSamePlace(table: seq<Observation>, x: Observation, y: Observation)
    requires DistinctIds(table) && x in table && y in table
    requires AtMost(x, y) && AtMost(y, x)
    ensures x == y
  {
    var i :| 0 <= i < |table| && table[i] == x;
    var j :| 0 <= j < |table| && table[j] == y;
  }

  /** The replay order of a table depends only on which rows it holds. */
  lemma ItemsDependOnRows(a: seq<Observation>, b: seq<Observation>)
    requires DistinctIds(a) && DistinctIds(b) && Elements(a) == Elements(b)
    ensures ReplayItems(a) == ReplayItems(b)
  {
    AtMostIsTotal();
    SameRowsSameMultiset(a, b);
    forall x, y | x in a && y in a && AtMost(x, y) && AtMost(y, x) ensures x == y {
      SameRowAtSamePlace(a, x, y);
    }
    SortIgnoresArrival(a, b, AtMost);
  }

  lemma ItemsAreRows(table: seq<Observation>)
    ensures forall x :: x in ReplayItems(table) <==> x in table
    ensures forall i, j :: 0 <= i < j < |table| ==> AtMost(ReplayItems(table)[i], ReplayItems(table)[j])
  {
    AtMostIsTotal();
    SortPermutes(table, AtMost);
    SortSorted(table, AtMost);
    forall x ensures x in ReplayItems(table) <==> x in table {
      assert x in ReplayItems(table) <==> x in multiset(ReplayItems(table));
      assert x in table <==> x in multiset(table);
    }
  }

  // ----- Which of several observations with one id is kept -----

  /** The first row of a sequence with the id. */
  function FirstWith(s: seq<Observation>, id: ObservationId): Option<Observation> {
    if s == [] then None else if s[0].id == id then Some(s[0]) else FirstWith(s[1..], id)
  }

  /** Among the observations of a batch with one id, the earliest in time, and of those the first to arrive. */
  ghost predicate IsEarliest(batch: seq<Observation>, i: int) {
    && 0 <= i < |batch|
    && forall j :: 0 <= j < |batch| && batch[j].id == batch[i].id ==>
         batch[i].at < batch[j].at || (batch[i].at == batch[j].at && i <= j)
  }

  lemma {:induction false} FirstWithAppend(s: seq<Observation>, row: Observation, id: ObservationId)
    ensures FirstWith(s + [row], id) == if FirstWith(s, id).Some? then FirstWith(s, id)
                                        else if row.id == id then Some(row) else None
  {
    if s == [] {
      assert s + [row] == [row];
    } else {
      FirstWithAppend(s[1..], row, id);
      assert (s + [row])[1..] == s[1..] + [row];
    }
  }

  lemma {:induction false} HasIdAppend(s: seq<Observation>, row: Observation, id: ObservationId)
    ensures HasId(s + [row], id) <==> HasId(s, id) || row.id == id
  {
    var more := s + [row];
    if i :| 0 <= i < |s| && s[i].id == id {
      assert more[i].id == id;
    }
    if row.id == id {
      assert more[|s|].id == id;
    }
  }

  /** Rows are kept in the order in which they are inserted: what is stored stays, and of a batch the first with an id. */
  lemma {:induction false} InsertKeepsFirst(table: seq<Observation>, batch: seq<Observation>, row: Observation)
    ensures var r := InsertAll(table, batch);
            && (row in r <==> row in table || (!HasId(table, row.id) && FirstWith(batch, row.id) == Some(row)))
            && (HasId(r, row.id) <==> HasId(table, row.id) || FirstWith(batch, row.id).Some?)
  {
    if batch != [] {
      var init, last := batch[..|batch| - 1], batch[|batch| - 1];
      assert init + [last] == batch;
      InsertKeepsFirst(table, init, row);
      FirstWithAppend(init, last, row.id);
      HasIdAppend(InsertAll(table, init), last, row.id);
    }
  }

  lemma {:induction false} FirstWithInsert(x: Observation, s: seq<Observation>, id: ObservationId)
    requires Sorted(s, AtMost)
    ensures var first := FirstWith(s, id);
            FirstWith(Insert(x, s, AtMost), id) ==
            if x.id == id && (first.None? || x.at <= first.value.at) then Some(x) else first
  {
    if s == [] {
      assert FirstWith([x], id) == if x.id == id then Some(x) else FirstWith([x][1..], id);
    } else if AtMost(x, s[0]) {
      assert ([x] + s)[1..] == s;
      FirstFrom(s, id);
    } else {
      var rest := Insert(x, s[1..], AtMost);
      FirstWithInsert(x, s[1..], id);
      assert ([s[0]] + rest)[1..] == rest;
      FirstFrom(s, id);
    }
  }

  lemma {:induction false} FirstFrom(s: seq<Observation>, id: ObservationId)
    requires s != [] && Sorted(s, AtMost)
    ensures FirstWith(s, id).Some? ==> FirstWith(s, id).value.id == id && s[0].at <= FirstWith(s, id).value.at
  {
    if s[0].id != id && s[1..] != [] {
      FirstFrom(s[1..], id);
      assert AtMost(s[0], s[1]);
    }
  }

  lemma {:induction false} FirstOfSorted(batch: seq<Observation>, i: int)
    requires IsEarliest(batch, i)
    ensures FirstWith(Sort(batch, AtMost), batch[i].id) == Some(batch[i])
  {
    var x, rest, id := batch[0], batch[1..], batch[i].id;
    AtMostIsTotal();
    SortSorted(rest, AtMost);
    FirstWithInsert(x, Sort(rest, AtMost), id);
    if i > 0 {
      assert forall j :: 0 <= j < |rest| ==> rest[j] == batch[j + 1];
      assert IsEarliest(rest, i - 1);
      FirstOfSorted(rest, i - 1);
    } else if k :| 0 <= k < |rest| && rest[k].id == id {
      var j := EarliestIndex(rest, k);
      FirstOfSorted(rest, j);
      assert rest[j] == batch[j + 1];
    } else {
      NoneWith(Sort(rest, AtMost), id, rest);
    }
  }

  lemma {:induction false} EarliestIndex(batch: seq<Observation>, k: nat) returns (i: nat)
    requires k < |batch|
    ensures IsEarliest(batch, i) && batch[i].id == batch[k].id
  {
    i := k;
    for n := 0 to |batch|
      invariant i < |batch| && batch[i].id == batch[k].id
      invariant forall j :: 0 <= j < n && batch[j].id == batch[k].id ==>
                  batch[i].at < batch[j].at || (batch[i].at == batch[j].at && i <= j)
    {
      if batch[n].id == batch[k].id && (batch[n].at < batch[i].at || (batch[n].at == batch[i].at && n < i)) {
        i := n;
      }
    }
  }

  lemma {:induction false} NoneWith(s: seq<Observation>, id: ObservationId, source: seq<Observation>)
    requires s == Sort(source, AtMost) && forall k :: 0 <= k < |source| ==> source[k].id != id
    ensures FirstWith(s, id).None?
  {
    ItemsAreRows(source);
    forall x | x in s ensures x.id != id {
      assert x in source;
    }
    Absent(s, id);
  }

  lemma {:induction false} Absent(s: seq<Observation>, id: ObservationId)
    requires forall x :: x in s ==> x.id != id
    ensures FirstWith(s, id).None?
  {
    if s != [] {
      Absent(s[1..], id);
    }
  }

  /**
    What an ingest stores: every row that was there, and of each id that was not,
    the earliest observation of the batch with it, the first to arrive among
    equally early ones.
  */
  lemma {:induction false} IngestKeepsEarliest(cfg: Config, profile: Profile, db: Db, batch: seq<Observation>, row: Observation)
    requires IngestStep(cfg, profile, db, batch).Success?
    ensures row in IngestStep(cfg, profile, db, batch).value.snapshots <==>
              || row in db.snapshots
              || (!HasId(db.snapshots, row.id) && exists i :: IsEarliest(batch, i) && batch[i] == row)
  {
    InsertKeepsFirst(db.snapshots, Sort(batch, AtMost), row);
    if i :| IsEarliest(batch, i) && batch[i] == row {
      FirstOfSorted(batch, i);
    } else if k :| 0 <= k < |batch| && batch[k].id == row.id {
      var i := EarliestIndex(batch, k);
      FirstOfSorted(batch, i);
      assert batch[i] != row;
    } else {
      NoneWith(Sort(batch, AtMost), row.id, batch);
    }
  }
}
