/**
  Inputs at which a law stops holding.  Each lemma exhibits one run; the exact
  conditions are in the modules that prove the laws.
*/
module ReplayLimits {
  import opened Options
  import opened UsageModel
  import opened ResetClassifier
  import opened Sorting
  import opened WindowReplay
  import opened ReplayInvariants
  import opened StateStore
  import opened SnapshotTable
  import opened TableGrowth
  import opened Batching
  import opened TableInvariants
  import Backfill
  import ReplayFixpoint
  import WindowStarts

  function Reading(offset: nat, at: Time, used: Percent): Observation {
    WeeklyOnly(Snapshot(ObservationId(0, offset), at, used, None))
  }

  lemma TwoItems(a: Observation, b: Observation)
    requires AtMost(a, b) && a.fiveHour.None? && b.fiveHour.None?
    ensures ReplayItems([a, b]) == [a, b] && Backfilled([a, b]) == [a, b]
    ensures ReplayItems([a]) == [a] && Backfilled([a]) == [a]
    ensures ReplayItems([]) == [] && Backfilled([]) == []
  {
    SortIdentity([a, b], AtMost);
    SortIdentity([a], AtMost);
    Backfill.BackfillWeeklyOnly([a, b]);
    Backfill.BackfillWeeklyOnly([a]);
  }

  lemma {:induction false} OneStep(env: Env, a: Observation)
    ensures Run(env, [a]) == Step(env, START, a)
  {
    assert [] + [a] == [a];
    RunAppend(env, [], a);
  }

  lemma {:induction false} TwoSteps(env: Env, a: Observation, b: Observation)
    ensures Run(env, [a]) == Step(env, START, a)
    ensures Run(env, [a, b]) == Step(env, Step(env, START, a), b)
  {
    OneStep(env, a);
    assert [a] + [b] == [a, b];
    RunAppend(env, [a], b);
  }

  // ----- A manual reset before the start of the current window -----

  /** A window of no length, pinned at the instant of two readings, opens twice with one start. */
  lemma ZeroLengthPinOpensTwice(env: Env, t: Time, used: Percent)
    requires t in env.preserved && env.preserved[t].end == t
    ensures !DistinctStarts(Rebuilt(env, [Reading(0, t, used), Reading(1, t, used)]))
  {
    var a, b := Reading(0, t, used), Reading(1, t, used);
    TwoItems(a, b);
    TwoSteps(env, a, b);
    var one := Step(env, START, a);
    assert Judge(START, a) == Admit(Opening);
    assert one.current.value.start == t && one.current.value.end == t;
    assert Judge(one, b) == Admit(Expired);
    var ws := Rebuilt(env, [a, b]);
    assert |ws| == 2 && ws[0].start == ws[1].start == t;
  }

  /**
    Two readings at one instant, then a manual reset dated before them: the next
    refresh violates the primary key and is rolled back, so the one after it
    meets the same store.
  */
  lemma {:induction false} ResetBeforeStartWedgesStore(cfg: Config, profile: Profile, t: Time, now: Time, used: Percent)
    requires now <= t
    ensures var ops := [Ingest(profile, [Reading(0, t, used), Reading(1, t, used)]), Reset(now)];
            && IngestStep(cfg, profile, RunOps(cfg, ops), []) == Failure(DuplicateWindowStart)
            && RunOp(cfg, RunOps(cfg, ops), Ingest(profile, [])) == RunOps(cfg, ops)
  {
    var a, b := Reading(0, t, used), Reading(1, t, used);
    var env := Env(cfg, profile, map[]);
    TwoItems(a, b);
    TwoSteps(env, a, b);
    InsertBoth(a, b);
    var one := Step(env, START, a);
    assert Judge(one, b) == Grow(0.0);
    var ws := Rebuilt(env, [a, b]);
    assert |ws| == 1 && ws[0].start == t;
    var first := Ingest(profile, [a, b]);
    var db1 := RunOp(cfg, EMPTY_DB, first);
    assert db1 == Db([a, b], RowsFor(ws, None), []);
    var db2 := ResetStep(db1, now);
    assert HasCurrent(db1.windows) by { assert db1.windows[0].isCurrent; }
    TwoOps(cfg, first, Reset(now));
    assert |db2.windows| == 1 && db2.windows[0].window.start == db2.windows[0].window.end == t;
    assert PreservedOf(db2.windows) == PreservedOf(db2.windows[..0])[t := PinnedBy(db2.windows[0])];
    ZeroLengthPinOpensTwice(Env(cfg, profile, PreservedOf(db2.windows)), t, used);
    assert InsertAll(db2.snapshots, []) == [a, b];
  }

  lemma InsertBoth(a: Observation, b: Observation)
    requires a.id != b.id
    ensures InsertAll([], [a, b]) == [a, b]
    ensures InsertAll([], [a]) == [a]
  {
    assert [a, b][..1] == [a] && [a][..0] == [];
    assert !HasId([], a.id);
    assert InsertAll([], [a]) == [a];
    assert !HasId([a], b.id);
  }

  lemma {:induction false} TwoOps(cfg: Config, first: Op, second: Op)
    ensures RunOps(cfg, [first, second]) == RunOp(cfg, RunOp(cfg, EMPTY_DB, first), second)
  {
    assert [first, second][..1] == [first] && [first][..0] == [];
    assert RunOps(cfg, [first]) == RunOp(cfg, EMPTY_DB, first);
  }

  // ----- A split behind the last accepted observation -----

  function Paired(offset: nat, at: Time, fiveReset: Time): Observation {
    Observation(ObservationId(0, offset), at,
                Some(RateWindow(1.0, FIVE_HOUR_MINUTES, Some(fiveReset))),
                Some(RateWindow(1.0, WEEKLY_MINUTES, Some(5_000 * MINUTE))))
  }

  /** 10:30 and 12:00 in the epoch ending 15:00, then 12:10 in one that began at 11:50. */
  function LateSplit(): seq<Observation> {
    [Paired(0, 30 * MINUTE, 300 * MINUTE), Paired(1, 120 * MINUTE, 300 * MINUTE), Paired(2, 130 * MINUTE, 410 * MINUTE)]
  }

  /** The window open after the two morning readings. */
  lemma {:induction false} MorningWindow(env: Env)
    requires env.preserved == map[]
    ensures var items := LateSplit();
            var one, two := Run(env, items[..1]), Run(env, items[..2]);
            && one.windows == [] && one.current.Some? && one.current.value.end == 300 * MINUTE
            && Judge(one, items[1]) == Grow(0.0)
            && two.windows == [] && two.current.Some?
            && two.current.value.start == 0 && two.current.value.end == 300 * MINUTE
            && two.accepted != [] && two.accepted[|two.accepted| - 1].item == items[1]
  {
    var items := LateSplit();
    RunAppend(env, [], items[0]);
    RunAppend(env, items[..1], items[1]);
    assert [] + [items[0]] == items[..1] && items[..1] + [items[1]] == items[..2];
    assert Judge(START, items[0]) == Admit(Opening);
    assert Run(env, items[..1]) == Open(env, START, items[0], Opening);
  }

  lemma AfternoonSplits()
    ensures var items := LateSplit();
            && ServerSplit(items[1], items[2])
            && Classify(items[1], items[2]) == Decision(Ambiguous, Some(120 * MINUTE))
  {
  }

  /** The split clips the morning window to 12:00, the time of its own last reading. */
  lemma {:induction false} MorningIsClipped(env: Env)
    requires env.preserved == map[]
    ensures var ws := WindowsOf(Run(env, LateSplit()));
            |ws| == 2 && ws[0].end == 120 * MINUTE
  {
    var items := LateSplit();
    MorningWindow(env);
    AfternoonSplits();
    RunAppend(env, items[..2], items[2]);
    assert items[..2] + [items[2]] == items;
    var two := Run(env, items[..2]);
    assert Judge(two, items[2]) == Admit(Split);
    assert Run(env, items) == Open(env, two, items[2], Split);
    assert Closed(two.current.value, Some(120 * MINUTE)).end == 120 * MINUTE;
  }

  /** So replaying the same three observations does not reproduce the table. */
  lemma {:induction false} LateSplitIsNotStable(env: Env, pinned: Env)
    requires env.preserved == map[] && pinned == env.(preserved := pinned.preserved)
    requires ReplayFixpoint.Pins(pinned.preserved, WindowsOf(Run(env, LateSplit())))
    ensures WindowsOf(Run(pinned, LateSplit())) != WindowsOf(Run(env, LateSplit()))
  {
    var items := LateSplit();
    MorningWindow(env);
    MorningIsClipped(env);
    assert !ReplayFixpoint.StepBeforeEnd(Run(env, items[..1]), items[1], WindowsOf(Run(env, items)));
    assert !ReplayFixpoint.BeforeEndUpTo(env, items, WindowsOf(Run(env, items)), 2);
    ReplayFixpoint.SecondReplayExactly(env, pinned, items);
  }

  // ----- Two calibrations at one instant -----

  lemma {:induction false} ThreeSteps(env: Env, a: Observation, b: Observation, c: Observation)
    ensures Run(env, [a, b, c]) == Step(env, Step(env, Step(env, START, a), b), c)
  {
    TwoSteps(env, a, b);
    RunAppend(env, [a, b], c);
    assert [a, b] + [c] == [a, b, c];
  }

  /** Unchanged readings inside a window leave one window, opened by the first of them. */
  lemma UnchangedReading(env: Env, st: ReplayState, first: Observation, b: Observation)
    requires first.fiveHour.None? && b.fiveHour.None?
    requires first.weekly == b.weekly == Some(RateWindow(1.0, WEEKLY_MINUTES, None))
    requires st.current.Some? && st.accepted != [] && st.windows == []
    requires Previous(st.accepted).value.fiveHour.None? && Previous(st.accepted).value.weekly == first.weekly
    requires st.current.value.latestUsed == 1.0 && st.current.value.latestReset == None
    requires b.at < st.current.value.end
    ensures var after := Step(env, st, b);
            && after.current.Some? && after.windows == [] && after.accepted != []
            && Previous(after.accepted).value == b
            && after.current.value.start == st.current.value.start && after.current.value.end == st.current.value.end
            && after.current.value.calibration == st.current.value.calibration
            && after.current.value.latestUsed == 1.0 && after.current.value.latestReset == None
  {
    assert Judge(st, b) == Grow(0.0);
  }

  lemma FirstReading(env: Env, a: Observation)
    requires env.preserved == map[] && a.fiveHour.None? && a.weekly == Some(RateWindow(1.0, WEEKLY_MINUTES, None))
    ensures var st := Step(env, START, a);
            && st.current.Some? && st.windows == [] && st.accepted == [Accepted(a, Opening)]
            && st.current.value.start == a.at && st.current.value.end == a.at + env.config.duration
            && st.current.value.calibration == env.profile(a)
            && st.current.value.latestUsed == 1.0 && st.current.value.latestReset == None
  {
  }

  /**
    Two readings of the first instant that select different calibrations: the
    condition for batching independence fails, and the later one shows if it
    arrives first.
  */
  lemma {:induction false} InstantProfilesShow(cfg: Config, profile: Profile, t: Time)
    requires profile(Reading(0, t, 1.0)) != profile(Reading(1, t, 1.0))
    ensures var a, b := Reading(0, t, 1.0), Reading(1, t, 1.0);
            && !OneCalibrationPerStart(cfg, profile, Whole([a, b]))
            && !EndsAsOneReplay(cfg, profile, [a, b], [[b], [a, b]])
  {
    var a, b := Reading(0, t, 1.0), Reading(1, t, 1.0);
    var env := Env(cfg, profile, map[]);
    TwoItems(a, b);
    InsertBoth(a, b);
    TwoSteps(env, a, b);
    FirstReading(env, a);
    UnchangedReading(env, Step(env, START, a), a, b);
    var canonical := CanonicalWindows(cfg, profile, Whole([a, b]));
    assert canonical[0] in canonical && canonical[0].start == t && canonical[0].calibration == profile(a);
    EarlyReadingShows(cfg, profile, [a, b], canonical[0], b);
  }

  lemma ArrivedInOrder(a: Observation, b: Observation, c: Observation)
    requires a.id != b.id && b.id != c.id && a.id != c.id
    ensures InsertAll([], [a, b, c]) == [a, b, c]
  {
    InsertBoth(a, b);
    assert [a, b, c][..2] == [a, b] && !HasId([a, b], c.id);
  }

  lemma ThreeItems(a: Observation, b: Observation, c: Observation)
    requires AtMost(a, b) && AtMost(b, c) && AtMost(a, c) && a.id != b.id && b.id != c.id && a.id != c.id
    ensures Whole([a, b, c]) == [a, b, c] && ReplayItems([a, b, c]) == [a, b, c]
  {
    SortIdentity([a, b, c], AtMost);
    ArrivedInOrder(a, b, c);
  }

  /** Inside a window the same disagreement is invisible: the condition holds, so batching never shows. */
  lemma {:induction false} InnerProfilesAreHidden(cfg: Config, profile: Profile, t: Time)
    requires cfg.duration > 1
    ensures var all := [Reading(0, t, 1.0), Reading(1, t + 1, 1.0), Reading(2, t + 1, 1.0)];
            OneCalibrationPerStart(cfg, profile, Whole(all))
  {
    var o, a, b := Reading(0, t, 1.0), Reading(1, t + 1, 1.0), Reading(2, t + 1, 1.0);
    var env := Env(cfg, profile, map[]);
    ThreeItems(o, a, b);
    ThreeSteps(env, o, a, b);
    FirstReading(env, o);
    var one := Step(env, START, o);
    UnchangedReading(env, one, o, a);
    UnchangedReading(env, Step(env, one, a), o, b);
    var canonical := CanonicalWindows(cfg, profile, Whole([o, a, b]));
    assert |canonical| == 1 && canonical[0].start == t && canonical[0].calibration == profile(o);
  }

  // ----- A five-hour reset that comes and goes -----

  function FiveHourReading(offset: nat, at: Time, reset: Option<Time>): Observation {
    Observation(ObservationId(0, offset), at, Some(RateWindow(1.0, FIVE_HOUR_MINUTES, reset)),
                Some(RateWindow(1.0, WEEKLY_MINUTES, Some(5_000 * MINUTE))))
  }

  /** A reset, a reading without one, and the first reset again. */
  function ResetLostAndFound(x: nat, y: nat, z: nat): seq<Observation> {
    [FiveHourReading(x, 1_000 * MINUTE, Some(1_100 * MINUTE)),
     FiveHourReading(y, 1_010 * MINUTE, None),
     FiveHourReading(z, 1_020 * MINUTE, Some(1_100 * MINUTE))]
  }

  lemma {:induction false} KnownEpochsStay(items: seq<Observation>, n: nat)
    requires n <= |items| && forall i :: 0 <= i < n ==> items[i].fiveHour.Some?
    ensures Backfilled(items)[..n] == items[..n]
  {
    forall i | 0 <= i < n ensures Backfilled(items)[i] == items[i] {
      Backfill.BackfillClosedForm(items, i);
    }
  }

  lemma LostAndFoundSplitsTwice(env: Env, x: nat, y: nat, z: nat)
    requires env.preserved == map[]
    ensures var items := ResetLostAndFound(x, y, z);
            var one := Step(env, START, items[0]);
            var two := Step(env, one, items[1]);
            && one.current.value.start == 800 * MINUTE
            && Judge(two, items[2]) == Admit(Split) && SplitStart(items[2]) == 800 * MINUTE
            && two.windows == [one.current.value]
  {
    var items := ResetLostAndFound(x, y, z);
    var one := Step(env, START, items[0]);
    assert one == Open(env, START, items[0], Opening);
    assert Judge(one, items[1]) == Admit(Split);
    assert Classify(items[0], items[1]) == Decision(Ambiguous, None);
    var two := Step(env, one, items[1]);
    assert two == Open(env, one, items[1], Split);
    assert ServerSplit(items[1], items[2]);
  }

  /** Both changes split, and the third window has the first one's start. */
  lemma {:induction false} LostAndFoundRepeats(env: Env, items: seq<Observation>, x: nat, y: nat, z: nat)
    requires env.preserved == map[] && |items| >= 3 && items[..3] == ResetLostAndFound(x, y, z)
    ensures WindowStarts.RepeatsAt(env, items, 2)
  {
    var first := ResetLostAndFound(x, y, z);
    assert items[..2] == items[..3][..2] == [first[0], first[1]] && items[2] == items[..3][2];
    LostAndFoundSplitsTwice(env, x, y, z);
    TwoSteps(env, first[0], first[1]);
    var two := Run(env, items[..2]);
    assert two.windows[0] in WindowsOf(two);
  }

  /** Whatever else is stored, as long as these three come first in time, a replay over an empty table fails. */
  lemma {:induction false} LostAndFoundFailsReplay(cfg: Config, profile: Profile, rows: seq<Observation>, x: nat, y: nat, z: nat)
    requires |ReplayItems(rows)| >= 3 && ReplayItems(rows)[..3] == ResetLostAndFound(x, y, z)
    ensures !WindowStarts.NoStartRepeats(Env(cfg, profile, map[]), Backfilled(ReplayItems(rows)))
  {
    var items := ReplayItems(rows);
    assert forall i :: 0 <= i < 3 ==> items[i] == items[..3][i];
    KnownEpochsStay(items, 3);
    LostAndFoundRepeats(Env(cfg, profile, map[]), Backfilled(items), x, y, z);
  }

  /** Paired data, no manual reset, an empty store: the transaction is rolled back. */
  lemma {:induction false} LostResetFailsIngest(cfg: Config, profile: Profile, x: nat, y: nat, z: nat)
    requires x != y && y != z && x != z
    ensures IngestStep(cfg, profile, EMPTY_DB, ResetLostAndFound(x, y, z)) == Failure(DuplicateWindowStart)
  {
    var items := ResetLostAndFound(x, y, z);
    ThreeItems(items[0], items[1], items[2]);
    assert items[..3] == items;
    LostAndFoundFailsReplay(cfg, profile, items, x, y, z);
    WindowStarts.IngestSucceedsExactly(cfg, profile, EMPTY_DB, items);
  }

  // ----- A reading at the instant its epoch ends -----

  /** Two readings of the epoch ending at 300 minutes, the second at its very end, and one of the next epoch. */
  function EpochEndsAtReading(): seq<Observation> {
    [FiveHourReading(0, 290 * MINUTE, Some(300 * MINUTE)),
     FiveHourReading(1, 300 * MINUTE, Some(300 * MINUTE)),
     FiveHourReading(2, 305 * MINUTE, Some(600 * MINUTE))]
  }

  lemma EpochEndRepeats(env: Env)
    requires env.preserved == map[]
    ensures var items := EpochEndsAtReading();
            var one := Step(env, START, items[0]);
            var two := Step(env, one, items[1]);
            && two.current.Some? && two.current.value.start == 300 * MINUTE
            && Judge(two, items[2]) == Admit(Split) && SplitStart(items[2]) == 300 * MINUTE
  {
    var items := EpochEndsAtReading();
    var one := Step(env, START, items[0]);
    assert one == Open(env, START, items[0], Opening);
    assert Judge(one, items[1]) == Admit(Expired);
    var two := Step(env, one, items[1]);
    assert two == Open(env, one, items[1], Expired);
    assert ServerSplit(items[1], items[2]);
  }

  /** The reading expires its window locally where the next split starts again, so the transaction is rolled back. */
  lemma {:induction false} EpochEndFailsIngest(cfg: Config, profile: Profile)
    ensures IngestStep(cfg, profile, EMPTY_DB, EpochEndsAtReading()) == Failure(DuplicateWindowStart)
  {
    var items := EpochEndsAtReading();
    var env := Env(cfg, profile, map[]);
    ThreeItems(items[0], items[1], items[2]);
    KnownEpochsStay(items, 3);
    EpochEndRepeats(env);
    TwoSteps(env, items[0], items[1]);
    assert items[..2] == [items[0], items[1]];
    var two := Run(env, items[..2]);
    assert WindowsOf(two)[|two.windows|] == two.current.value && two.current.value in WindowsOf(two);
    assert WindowStarts.RepeatsAt(env, items, 2);
    WindowStarts.IngestSucceedsExactly(cfg, profile, EMPTY_DB, items);
    assert items[..3] == items && Backfilled(items)[..3] == Backfilled(items);
    assert WindowStarts.NextItems(EMPTY_DB, items) == items;
  }

  // ----- Disjoint windows out of order -----

  /** A reading without a reset, then one whose epoch ended just before it. */
  function EpochJustOver(): seq<Observation> {
    [FiveHourReading(0, 1_000 * MINUTE, None),
     FiveHourReading(1, 1_000 * MINUTE + 30 * SECOND, Some(1_000 * MINUTE - 10 * SECOND))]
  }

  /** The split does not fit, so the windows are out of order, and yet they are disjoint. */
  lemma {:induction false} DisjointOutOfOrder(env: Env)
    requires env.preserved == map[]
    ensures var ws := WindowsOf(Run(env, EpochJustOver()));
            |ws| == 2 && ws[1].end <= ws[0].start && !InOrder(ws)
  {
    var items := EpochJustOver();
    TwoSteps(env, items[0], items[1]);
    var one := Step(env, START, items[0]);
    assert one == Open(env, START, items[0], Opening);
    assert Judge(one, items[1]) == Admit(Split);
    var two := Step(env, one, items[1]);
    assert two == Open(env, one, items[1], Split);
    var ws := WindowsOf(two);
    assert ws[1] == two.current.value && ws[0] == two.windows[0];
    assert ws[1].end == 1_000 * MINUTE - 10 * SECOND && ws[0].start == 1_000 * MINUTE;
    assert ws[1].start < ws[0].end;
    assert !InOrder(ws) by {
      assert !(ws[1 - 1].end <= ws[1].start);
    }
  }
}
