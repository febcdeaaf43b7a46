/**
  When a transaction fails: `windows.started_at` is a primary key, so an ingest
  is rolled back exactly when its replay opens two windows with one start.
*/
module WindowStarts {
  import opened Options
  import opened UsageModel
  import opened ResetClassifier
  import opened Sorting
  import opened WindowReplay
  import opened ReplayInvariants
  import opened StateStore
  import opened SnapshotTable
  import opened TableGrowth
  import opened TableInvariants
  import Backfill

  /** The start of the window an admitted item opens. */
  function OpeningStart(item: Observation, how: Admission): Time {
    if how.Expired? then item.at else SplitStart(item)
  }

  /** The item opens a window whose start an earlier window already has. */
  ghost predicate RepeatsStart(st: ReplayState, item: Observation) {
    var verdict := Judge(st, item);
    verdict.Admit? && exists w :: w in WindowsOf(st) && w.start == OpeningStart(item, verdict.how)
  }

  ghost predicate RepeatsAt(env: Env, items: seq<Observation>, k: nat)
    requires k < |items|
  {
    RepeatsStart(Run(env, items[..k]), items[k])
  }

  ghost predicate NoStartRepeats(env: Env, items: seq<Observation>) {
    forall k :: 0 <= k < |items| ==> !RepeatsAt(env, items, k)
  }

  function Starts(ws: seq<ReplayWindow>): (r: seq<Time>)
    ensures |r| == |ws| && forall i :: 0 <= i < |r| ==> r[i] == ws[i].start
  {
    seq(|ws|, i requires 0 <= i < |ws| => ws[i].start)
  }

  /** A step keeps the starts of all windows, and adds one exactly when it opens a window. */
  lemma StepStarts(env: Env, st: ReplayState, item: Observation)
    requires st.current.None? ==> st.windows == [] && st.accepted == []
    ensures var verdict := Judge(st, item);
            Starts(WindowsOf(Step(env, st, item)))
            == Starts(WindowsOf(st)) + (if verdict.Admit? then [OpeningStart(item, verdict.how)] else [])
  {
    var verdict := Judge(st, item);
    if verdict.Admit? {
      OpenStart(env, st, item, verdict.how);
      var after := Open(env, st, item, verdict.how);
      assert st.current.Some? ==> after.windows == st.windows + [after.windows[|st.windows|]];
    }
  }

  lemma {:induction false} NothingBeforeTheFirst(env: Env, items: seq<Observation>)
    ensures Run(env, items).current.None? ==> Run(env, items).windows == [] && Run(env, items).accepted == []
  {
    if items != [] {
      NothingBeforeTheFirst(env, items[..|items| - 1]);
    }
  }

  lemma DistinctNext(a: seq<ReplayWindow>, b: seq<ReplayWindow>, start: Time)
    requires Starts(b) == Starts(a) + [start]
    ensures DistinctStarts(b) <==> DistinctStarts(a) && forall w :: w in a ==> w.start != start
  {
    var n := |a|;
    assert |b| == n + 1 && Starts(b)[n] == start;
    assert forall i :: 0 <= i < n ==> Starts(b)[i] == a[i].start;
    if DistinctStarts(b) {
      forall w | w in a ensures w.start != start {
        var i :| 0 <= i < n && a[i] == w;
        assert b[i].start != b[n].start;
      }
      forall i, j | 0 <= i < j < n ensures a[i].start != a[j].start {
        assert b[i].start != b[j].start;
      }
    }
    if DistinctStarts(a) && forall w :: w in a ==> w.start != start {
      forall i, j | 0 <= i < j <= n ensures b[i].start != b[j].start {
        assert a[i] in a;
        assert j < n ==> a[i].start != a[j].start;
      }
    }
  }

  lemma DistinctSame(a: seq<ReplayWindow>, b: seq<ReplayWindow>)
    requires Starts(b) == Starts(a)
    ensures DistinctStarts(b) <==> DistinctStarts(a)
  {
    assert forall i :: 0 <= i < |a| ==> Starts(b)[i] == Starts(a)[i];
  }

  lemma {:induction false} DistinctOneMore(env: Env, items: seq<Observation>)
    requires items != []
    ensures var prefix := items[..|items| - 1];
            DistinctStarts(WindowsOf(Run(env, items)))
            <==> DistinctStarts(WindowsOf(Run(env, prefix))) && !RepeatsAt(env, items, |items| - 1)
  {
    var prefix, item := items[..|items| - 1], items[|items| - 1];
    var st := Run(env, prefix);
    NothingBeforeTheFirst(env, prefix);
    StepStarts(env, st, item);
    var verdict := Judge(st, item);
    if verdict.Admit? {
      DistinctNext(WindowsOf(st), WindowsOf(Run(env, items)), OpeningStart(item, verdict.how));
    } else {
      DistinctSame(WindowsOf(st), WindowsOf(Run(env, items)));
    }
  }

  lemma RepeatsAtPrefix(env: Env, items: seq<Observation>, n: nat, k: nat)
    requires k < n <= |items|
    ensures RepeatsAt(env, items[..n], k) <==> RepeatsAt(env, items, k)
  {
    assert items[..n][..k] == items[..k];
  }

  lemma NoRepeatsOneMore(env: Env, items: seq<Observation>)
    requires items != []
    ensures NoStartRepeats(env, items)
            <==> NoStartRepeats(env, items[..|items| - 1]) && !RepeatsAt(env, items, |items| - 1)
  {
    var n := |items| - 1;
    forall k | 0 <= k < n ensures RepeatsAt(env, items[..n], k) <==> RepeatsAt(env, items, k) {
      RepeatsAtPrefix(env, items, n, k);
    }
  }

  /** The windows of a run have distinct starts exactly when no split, opening or expiry repeats an earlier start. */
  lemma {:induction false} DistinctStartsExactly(env: Env, items: seq<Observation>)
    ensures DistinctStarts(WindowsOf(Run(env, items))) <==> NoStartRepeats(env, items)
  {
    if items != [] {
      DistinctStartsExactly(env, items[..|items| - 1]);
      DistinctOneMore(env, items);
      NoRepeatsOneMore(env, items);
    }
  }

  /** What the next ingest replays. */
  function NextItems(db: Db, batch: seq<Observation>): seq<Observation> {
    Backfilled(ReplayItems(InsertAll(db.snapshots, Sort(batch, AtMost))))
  }

  function NextEnv(cfg: Config, profile: Profile, db: Db): Env {
    Env(cfg, profile, PreservedOf(db.windows))
  }

  /** Any ingest, of paired or weekly-only data, succeeds exactly when its replay repeats no start. */
  lemma IngestSucceedsExactly(cfg: Config, profile: Profile, db: Db, batch: seq<Observation>)
    ensures IngestStep(cfg, profile, db, batch).Success?
            <==> NoStartRepeats(NextEnv(cfg, profile, db), NextItems(db, batch))
  {
    DistinctStartsExactly(NextEnv(cfg, profile, db), NextItems(db, batch));
  }

  // ----- Weekly-only data -----

  /** The item expires the open window at the very instant at which that window starts. */
  predicate ReopensAtOnce(st: ReplayState, item: Observation) {
    Judge(st, item) == Admit(Expired) && st.current.Some? && item.at == st.current.value.start
  }

  ghost predicate NoneReopensAtOnce(env: Env, items: seq<Observation>) {
    forall k :: 0 <= k < |items| ==> !ReopensAtOnce(Run(env, items[..k]), items[k])
  }

  /** In order, only the open window can start where the next one does. */
  lemma WeeklyRepeats(env: Env, st: ReplayState, item: Observation)
    requires item.fiveHour.None? && Tracks(st)
    requires InOrder(WindowsOf(st)) && AllSane(WindowsOf(st))
    ensures RepeatsStart(st, item) <==> ReopensAtOnce(st, item)
  {
    WeeklyItemNeverSplits(st, item);
    var ws := WindowsOf(st);
    if ReopensAtOnce(st, item) {
      assert ws[|ws| - 1] == st.current.value && ws[|ws| - 1] in ws;
    }
    if RepeatsStart(st, item) {
      var w :| w in ws && w.start == OpeningStart(item, Judge(st, item).how);
      var i :| 0 <= i < |ws| && ws[i] == w;
      assert ws[|ws| - 1] == st.current.value;
      if i < |ws| - 1 {
        InOrderDisjoint(ws, i, |ws| - 1);
      }
    }
  }

  lemma PrefixIsWeekly(items: seq<Observation>, k: nat)
    requires Loaded(items) && InTime(items) && NoFiveHour(items) && k <= |items|
    ensures Loaded(items[..k]) && InTime(items[..k]) && NoFiveHour(items[..k])
  {
  }

  /** Weekly-only windows have distinct starts exactly when no reading expires a window at the instant it starts. */
  lemma {:induction false} WeeklyStartsExactly(env: Env, items: seq<Observation>)
    requires SanePreserved(env.preserved) && Loaded(items) && InTime(items) && NoFiveHour(items)
    ensures DistinctStarts(WindowsOf(Run(env, items)))
            <==> NoneReopensAtOnce(env, items)
  {
    DistinctStartsExactly(env, items);
    forall k | 0 <= k < |items|
      ensures RepeatsAt(env, items, k) <==> ReopensAtOnce(Run(env, items[..k]), items[k])
    {
      PrefixIsWeekly(items, k);
      RunTracks(env, items[..k]);
      RunIsSane(env, items[..k]);
      WeeklyOnlyInOrder(env, items[..k]);
      WeeklyRepeats(env, Run(env, items[..k]), items[k]);
    }
  }

  /** A weekly-only ingest fails exactly when some reading expires a window at the instant it starts. */
  lemma WeeklyIngestSucceedsExactly(cfg: Config, profile: Profile, db: Db, batch: seq<Observation>)
    requires TableInvariant(db) && WeeklyOnlyTable(db)
    requires forall o :: o in batch ==> o.fiveHour.None? && o.weekly.Some?
    ensures IngestStep(cfg, profile, db, batch).Success?
            <==> NoneReopensAtOnce(NextEnv(cfg, profile, db), NextItems(db, batch))
  {
    NextItemsAreWeekly(db, batch);
    SaneTablePinsSanely(db.windows);
    WeeklyStartsExactly(NextEnv(cfg, profile, db), NextItems(db, batch));
  }

  lemma NextItemsAreWeekly(db: Db, batch: seq<Observation>)
    requires DistinctIds(db.snapshots) && WeeklyOnlyTable(db)
    requires forall o :: o in batch ==> o.fiveHour.None? && o.weekly.Some?
    ensures Loaded(NextItems(db, batch)) && InTime(NextItems(db, batch)) && NoFiveHour(NextItems(db, batch))
  {
    WeeklyInsert(db, batch);
    var rows := InsertAll(db.snapshots, Sort(batch, AtMost));
    ItemsAreRows(rows);
    forall i | 0 <= i < |ReplayItems(rows)| ensures ReplayItems(rows)[i].fiveHour.None? && ReplayItems(rows)[i].weekly.Some? {
      assert ReplayItems(rows)[i] in rows;
    }
    Backfill.BackfillWeeklyOnly(ReplayItems(rows));
  }
}
