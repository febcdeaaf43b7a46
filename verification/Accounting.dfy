/**
  The incremental meter of `src/calculate.rs`: `AccountingEngine` folds weekly
  snapshots into one local window at a time.
*/
module Accounting {
  import opened Options
  import opened UsageModel
  import opened Milestones
  import opened Sorting

  datatype WeeklyTransition =
    | Advance(delta: real)
    | Reset(delta: real)
    | IgnoreRegression

  function Transition(previousUsed: Percent, previousReset: Option<Time>, nextUsed: Percent, nextReset: Option<Time>): WeeklyTransition {
    if previousReset.Some? && nextReset.Some? then
      var shift := nextReset.value - previousReset.value;
      if shift > JITTER then Reset(nextUsed)
      else if shift < -JITTER || nextUsed < previousUsed then IgnoreRegression
      else Advance(nextUsed - previousUsed)
    else if nextUsed < previousUsed then Reset(nextUsed)
    else Advance(nextUsed - previousUsed)
  }

  datatype LocalWindow = LocalWindow(
    start: Time,
    end: Time,
    calibration: Positive,
    latest: Snapshot,
    points: real,
    lastMilestone: Option<nat>)

  datatype WindowStatus = Fresh | Stale | Expired

  datatype MeterReading = MeterReading(
    start: Time,
    end: Time,
    weeklyPoints: real,
    estimate: real,
    status: WindowStatus,
    observedAt: Time,
    crossedMilestone: Option<nat>)

  datatype Outcome = Outcome(accepted: bool, reading: MeterReading, archived: Option<MeterReading>)

  function NewWindow(snapshot: Snapshot, cfg: Config): LocalWindow {
    LocalWindow(snapshot.at, snapshot.at + cfg.duration, cfg.calibration, snapshot, 0.0, None)
  }

  function ReadingFor(w: LocalWindow, cfg: Config, now: Time, crossed: Option<nat>): MeterReading {
    var status :=
      if now >= w.end then Expired
      else if now - w.latest.at > cfg.staleAfter then Stale
      else Fresh;
    MeterReading(w.start, w.end, w.points, EstimatePercent(w.points, w.calibration), status, w.latest.at, crossed)
  }

  datatype EngineState = EngineState(window: Option<LocalWindow>, seen: set<ObservationId>)

  const EMPTY: EngineState := EngineState(None, {})

  /** What the engine does with a snapshot, in the order in which it tests. */
  datatype Verdict = Duplicate | First | Expiry | OutOfOrder | Regression | Accumulate(delta: real)

  function Judge(e: EngineState, s: Snapshot): Verdict {
    if s.id in e.seen then Duplicate
    else if e.window.None? then First
    else
      var w := e.window.value;
      if s.at >= w.end then Expiry
      else if SnapshotAtMost(s, w.latest) then OutOfOrder
      else
        match Transition(w.latest.used, w.latest.resetsAt, s.used, s.resetsAt)
        case IgnoreRegression => Regression
        case Advance(delta) => Accumulate(delta)
        case Reset(delta) => Accumulate(delta)
  }

  predicate Accepts(e: EngineState, s: Snapshot) {
    var verdict := Judge(e, s);
    verdict.First? || verdict.Expiry? || verdict.Accumulate?
  }

  function Accumulated(w: LocalWindow, cfg: Config, s: Snapshot, delta: real): LocalWindow {
    var points := MaxReal(w.points + delta, 0.0);
    var crossed := NewestUnemitted(cfg, EstimatePercent(points, w.calibration), w.lastMilestone);
    w.(points := points,
       latest := s,
       lastMilestone := if crossed.Some? then crossed else w.lastMilestone)
  }

  /** The milestone an accepted snapshot emits, if it emits one. */
  function Crossed(cfg: Config, e: EngineState, s: Snapshot): Option<nat> {
    match Judge(e, s)
    case Accumulate(delta) =>
      if e.window.Some? then
        var w := e.window.value;
        NewestUnemitted(cfg, EstimatePercent(MaxReal(w.points + delta, 0.0), w.calibration), w.lastMilestone)
      else None
    case _ => None
  }

  /** The engine state after `apply`. */
  function Next(cfg: Config, e: EngineState, s: Snapshot): EngineState {
    var window :=
      match Judge(e, s)
      case First => Some(NewWindow(s, cfg))
      case Expiry => Some(NewWindow(s, cfg))
      case Accumulate(delta) => if e.window.Some? then Some(Accumulated(e.window.value, cfg, s, delta)) else None
      case _ => e.window;
    EngineState(window, e.seen + {s.id})
  }

  function Fold(cfg: Config, e: EngineState, run: seq<Snapshot>): EngineState {
    if run == [] then e else Next(cfg, Fold(cfg, e, run[..|run| - 1]), run[|run| - 1])
  }

  lemma {:induction false} FoldAppend(cfg: Config, e: EngineState, run: seq<Snapshot>, s: Snapshot)
    ensures Fold(cfg, e, run + [s]) == Next(cfg, Fold(cfg, e, run), s)
  {
    assert (run + [s])[..|run|] == run;
  }

  /** Each outcome of an ordered run reports acceptance as the engine state before it decides. */
  ghost predicate AcceptedAsJudged(cfg: Config, e: EngineState, sorted: seq<Snapshot>, outcomes: seq<Outcome>) {
    && |outcomes| <= |sorted|
    && forall i :: 0 <= i < |outcomes| ==> (outcomes[i].accepted <==> Accepts(Fold(cfg, e, sorted[..i]), sorted[i]))
  }

  lemma {:induction false} AcceptedAppend(cfg: Config, e: EngineState, sorted: seq<Snapshot>, outcomes: seq<Outcome>, outcome: Outcome)
    requires AcceptedAsJudged(cfg, e, sorted, outcomes) && |outcomes| < |sorted|
    requires outcome.accepted <==> Accepts(Fold(cfg, e, sorted[..|outcomes|]), sorted[|outcomes|])
    ensures AcceptedAsJudged(cfg, e, sorted, outcomes + [outcome])
  {
  }

  class AccountingEngine {
    const config: Config
    var window: Option<LocalWindow>
    var seen: set<ObservationId>

    /** A duplicate can only exist after a window was created. */
    ghost predicate Valid()
      reads this
    {
      window.None? ==> seen == {}
    }

    function State(): EngineState
      reads this
    {
      EngineState(window, seen)
    }

    constructor (config: Config)
      ensures Valid() && State() == EMPTY && this.config == config
    {
      this.config := config;
      window, seen := None, {};
    }

    method Reading(now: Time) returns (r: Option<MeterReading>)
      ensures r == if window.Some? then Some(ReadingFor(window.value, config, now, None)) else None
    {
      if window.Some? {
        r := Some(ReadingFor(window.value, config, now, None));
      } else {
        r := None;
      }
    }

    method Apply(snapshot: Snapshot, now: Time) returns (outcome: Outcome)
      requires Valid()
      modifies this`window, this`seen
      ensures Valid() && window.Some?
      ensures State() == Next(config, old(State()), snapshot)
      ensures outcome.accepted <==> Accepts(old(State()), snapshot)
      ensures outcome.accepted ==> window.value.latest == snapshot
      ensures !outcome.accepted ==> window == old(window)
      ensures outcome.reading == ReadingFor(window.value, config, now, outcome.reading.crossedMilestone)
      ensures outcome.reading.crossedMilestone == Crossed(config, old(State()), snapshot)
      ensures outcome.archived ==
              if Judge(old(State()), snapshot).Expiry?
              then Some(ReadingFor(old(window).value, config, now, None)) else None
    {
      if snapshot.id in seen {
        return Outcome(false, ReadingFor(window.value, config, now, None), None);
      }
      seen := seen + {snapshot.id};
      if window.None? {
        window := Some(NewWindow(snapshot, config));
        return Outcome(true, ReadingFor(window.value, config, now, None), None);
      }
      var w := window.value;
      if snapshot.at >= w.end {
        var archived := ReadingFor(w, config, now, None);
        window := Some(NewWindow(snapshot, config));
        return Outcome(true, ReadingFor(window.value, config, now, None), Some(archived));
      }
      if SnapshotAtMost(snapshot, w.latest) {
        return Outcome(false, ReadingFor(w, config, now, None), None);
      }
      var delta: real;
      match Transition(w.latest.used, w.latest.resetsAt, snapshot.used, snapshot.resetsAt) {
        case IgnoreRegression =>
          return Outcome(false, ReadingFor(w, config, now, None), None);
        case Advance(d) => delta := d;
        case Reset(d) => delta := d;
      }
      var points := MaxReal(w.points + delta, 0.0);
      w := w.(points := points, latest := snapshot);
      var crossed := NewestUnemitted(config, EstimatePercent(points, w.calibration), w.lastMilestone);
      if crossed.Some? {
        w := w.(lastMilestone := crossed);
      }
      window := Some(w);
      outcome := Outcome(true, ReadingFor(w, config, now, crossed), None);
    }

    /** The closure `apply_ordered` maps over its sorted snapshots. */
    method ApplyAtOwnTime(snapshot: Snapshot) returns (outcome: Outcome)
      requires Valid()
      modifies this`window, this`seen
      ensures Valid()
      ensures State() == Next(config, old(State()), snapshot)
      ensures outcome.accepted <==> Accepts(old(State()), snapshot)
    {
      outcome := Apply(snapshot, snapshot.at);
    }

    method ApplyOrdered(snapshots: seq<Snapshot>) returns (outcomes: seq<Outcome>)
      requires Valid()
      modifies this`window, this`seen
      ensures Valid()
      ensures State() == Fold(config, old(State()), Sort(snapshots, SnapshotAtMost))
      ensures |outcomes| == |snapshots|
      ensures AcceptedAsJudged(config, old(State()), Sort(snapshots, SnapshotAtMost), outcomes)
    {
      var sorted := Sort(snapshots, SnapshotAtMost);
      ghost var first := State();
      outcomes := [];
      for i := 0 to |sorted|
        invariant Valid()
        invariant |outcomes| == i
        invariant AcceptedAsJudged(config, first, sorted, outcomes)
        invariant State() == Fold(config, first, sorted[..i])
      {
        var prefix := sorted[..i];
        var outcome := ApplyAtOwnTime(sorted[i]);
        AcceptedAppend(config, first, sorted, outcomes, outcome);
        FoldAppend(config, first, prefix, sorted[i]);
        assert prefix + [sorted[i]] == sorted[..i + 1];
        outcomes := outcomes + [outcome];
      }
      assert sorted[..|sorted|] == sorted;
    }
  }

  // ----- What a window contains: the snapshots accepted into it -----

  datatype WindowTrace = WindowTrace(window: LocalWindow, members: seq<Snapshot>)

  /** A run of the engine: its windows in order, each with its accepted snapshots. */
  datatype Trace = Trace(archived: seq<WindowTrace>, current: Option<WindowTrace>, seen: set<ObservationId>)

  function StateOf(t: Trace): EngineState {
    EngineState(if t.current.Some? then Some(t.current.value.window) else None, t.seen)
  }

  function TraceStep(cfg: Config, t: Trace, s: Snapshot): Trace {
    var e := StateOf(t);
    var seen := t.seen + {s.id};
    match Judge(e, s)
    case First => Trace(t.archived, Some(WindowTrace(NewWindow(s, cfg), [s])), seen)
    case Expiry =>
      Trace(if t.current.Some? then t.archived + [t.current.value] else t.archived,
            Some(WindowTrace(NewWindow(s, cfg), [s])), seen)
    case Accumulate(delta) =>
      if t.current.Some? then
        var c := t.current.value;
        Trace(t.archived, Some(WindowTrace(Accumulated(c.window, cfg, s, delta), c.members + [s])), seen)
      else t
    case _ => t.(seen := seen)
  }

  function TraceRun(cfg: Config, run: seq<Snapshot>): Trace {
    if run == [] then Trace([], None, {})
    else TraceStep(cfg, TraceRun(cfg, run[..|run| - 1]), run[|run| - 1])
  }

  lemma {:induction false} TraceFollowsEngine(cfg: Config, run: seq<Snapshot>)
    ensures StateOf(TraceRun(cfg, run)) == Fold(cfg, EMPTY, run)
  {
    if run == [] {
    } else {
      TraceFollowsEngine(cfg, run[..|run| - 1]);
    }
  }

  function PairTransition(a: Snapshot, b: Snapshot): WeeklyTransition {
    Transition(a.used, a.resetsAt, b.used, b.resetsAt)
  }

  /** Consecutive members are strictly later and never regressions. */
  ghost predicate Chain(members: seq<Snapshot>) {
    forall i :: 0 < i < |members| ==>
      !PairTransition(members[i - 1], members[i]).IgnoreRegression? && !SnapshotAtMost(members[i], members[i - 1])
  }

  /** The readings that were on the meter just before each weekly reset. */
  function PreResetSum(members: seq<Snapshot>): real {
    var n := |members|;
    if n < 2 then 0.0
    else PreResetSum(members[..n - 1])
         + (if PairTransition(members[n - 2], members[n - 1]).Reset? then members[n - 2].used else 0.0)
  }

  function ResetCount(members: seq<Snapshot>): nat {
    var n := |members|;
    if n < 2 then 0
    else ResetCount(members[..n - 1])
         + (if PairTransition(members[n - 2], members[n - 1]).Reset? then 1 else 0)
  }

  /**
    The accounting identity of one window: points gained plus the first reading
    equal the latest reading plus everything a weekly reset wiped from the meter.
  */
  ghost predicate Balanced(t: WindowTrace) {
    && t.members != []
    && Chain(t.members)
    && t.window.latest == t.members[|t.members| - 1]
    && t.window.start == t.members[0].at
    && t.window.points + t.members[0].used == t.window.latest.used + PreResetSum(t.members)
    && 0.0 <= t.window.points
  }

  ghost predicate WellKept(cfg: Config, t: WindowTrace) {
    && Balanced(t)
    && t.window.end == t.window.start + cfg.duration
    && t.window.calibration == cfg.calibration
    && (forall m :: m in t.members ==> t.window.start <= m.at < t.window.end)
  }

  /** The milestone remembered for a window is the one replay computes without memory. */
  ghost predicate MilestoneAgrees(cfg: Config, w: LocalWindow) {
    w.lastMilestone == NewestMilestone(cfg, EstimatePercent(w.points, w.calibration))
  }

  /** Deltas are never negative, so the clamp to zero never changes a value. */
  lemma ClampIsIdle(w: LocalWindow, s: Snapshot)
    requires 0.0 <= w.points
    requires !PairTransition(w.latest, s).IgnoreRegression?
    ensures w.points + PairTransition(w.latest, s).delta >= w.points >= 0.0
    ensures MaxReal(w.points + PairTransition(w.latest, s).delta, 0.0)
            == w.points + PairTransition(w.latest, s).delta
  {
  }

  lemma {:induction false} ChainAppend(members: seq<Snapshot>, s: Snapshot)
    requires members != [] && Chain(members)
    requires var last := members[|members| - 1];
             !PairTransition(last, s).IgnoreRegression? && !SnapshotAtMost(s, last)
    ensures Chain(members + [s])
    ensures PreResetSum(members + [s]) == PreResetSum(members)
              + (if PairTransition(members[|members| - 1], s).Reset? then members[|members| - 1].used else 0.0)
  {
    var more := members + [s];
    assert more[..|members|] == members;
    assert forall i :: 0 <= i < |members| ==> more[i] == members[i];
  }

  lemma AccumulateKeeps(cfg: Config, c: WindowTrace, s: Snapshot)
    requires WellKept(cfg, c)
    requires s.at < c.window.end && !SnapshotAtMost(s, c.window.latest)
    requires !PairTransition(c.window.latest, s).IgnoreRegression?
    ensures var w := Accumulated(c.window, cfg, s, PairTransition(c.window.latest, s).delta);
            && WellKept(cfg, WindowTrace(w, c.members + [s]))
            && c.window.points <= w.points
  {
    ClampIsIdle(c.window, s);
    ChainAppend(c.members, s);
    assert c.window.start <= c.window.latest.at by { assert c.window.latest in c.members; }
  }

  lemma AccumulateMilestone(cfg: Config, w: LocalWindow, s: Snapshot)
    requires PositiveThresholds(cfg) && MilestoneAgrees(cfg, w)
    requires 0.0 <= w.points && !PairTransition(w.latest, s).IgnoreRegression?
    ensures var r := Accumulated(w, cfg, s, PairTransition(w.latest, s).delta);
            && MilestoneAgrees(cfg, r)
            && (r.lastMilestone != w.lastMilestone ==>
                  r.lastMilestone.Some? && (w.lastMilestone.Some? ==> w.lastMilestone.value < r.lastMilestone.value))
  {
    ClampIsIdle(w, s);
    var points := w.points + PairTransition(w.latest, s).delta;
    EstimateGrows(w.points, points, w.calibration);
    MilestoneStep(cfg, EstimatePercent(w.points, w.calibration), EstimatePercent(points, w.calibration));
  }

  ghost predicate TraceWellKept(cfg: Config, t: Trace) {
    && (forall a :: a in t.archived ==> WellKept(cfg, a))
    && (t.current.Some? ==> WellKept(cfg, t.current.value))
    && (t.current.None? ==> t.archived == [] && t.seen == {})
  }

  lemma StepKeepsTrace(cfg: Config, t: Trace, s: Snapshot)
    requires TraceWellKept(cfg, t)
    ensures TraceWellKept(cfg, TraceStep(cfg, t, s))
  {
    if Judge(StateOf(t), s).Accumulate? {
      AccumulateKeeps(cfg, t.current.value, s);
    }
  }

  /**
    Every window the engine ever holds is balanced, over any input: any order,
    any duplicates, any reset timestamps.
  */
  lemma {:induction false} EveryWindowIsBalanced(cfg: Config, run: seq<Snapshot>)
    ensures TraceWellKept(cfg, TraceRun(cfg, run))
  {
    if run == [] {
    } else {
      EveryWindowIsBalanced(cfg, run[..|run| - 1]);
      StepKeepsTrace(cfg, TraceRun(cfg, run[..|run| - 1]), run[|run| - 1]);
    }
  }

  ghost predicate TraceMilestonesAgree(cfg: Config, t: Trace) {
    && (forall a :: a in t.archived ==> MilestoneAgrees(cfg, a.window))
    && (t.current.Some? ==> MilestoneAgrees(cfg, t.current.value.window))
  }

  lemma StepKeepsMilestones(cfg: Config, t: Trace, s: Snapshot)
    requires PositiveThresholds(cfg) && TraceWellKept(cfg, t) && TraceMilestonesAgree(cfg, t)
    ensures TraceMilestonesAgree(cfg, TraceStep(cfg, t, s))
  {
    EmptyWindowMilestone(cfg);
    if Judge(StateOf(t), s).Accumulate? {
      AccumulateMilestone(cfg, t.current.value.window, s);
    }
  }

  /** The milestone memory of every window the engine ever holds is exact. */
  lemma {:induction false} EveryMilestoneAgrees(cfg: Config, run: seq<Snapshot>)
    requires PositiveThresholds(cfg)
    ensures TraceMilestonesAgree(cfg, TraceRun(cfg, run))
  {
    if run == [] {
    } else {
      EveryMilestoneAgrees(cfg, run[..|run| - 1]);
      EveryWindowIsBalanced(cfg, run[..|run| - 1]);
      StepKeepsMilestones(cfg, TraceRun(cfg, run[..|run| - 1]), run[|run| - 1]);
    }
  }

  lemma {:induction false} PreResetBound(members: seq<Snapshot>)
    ensures 0.0 <= PreResetSum(members) <= 100.0 * ResetCount(members) as real
  {
    if |members| < 2 {
    } else {
      PreResetBound(members[..|members| - 1]);
    }
  }

  /** With `k` weekly resets inside it, a window never holds more than `100 * (k + 1)` points. */
  lemma PointsBound(t: WindowTrace)
    requires Balanced(t)
    ensures 0.0 <= t.window.points <= 100.0 * (ResetCount(t.members) + 1) as real
  {
    PreResetBound(t.members);
  }

  /** The milestones emitted so far in the current window, in order. */
  function Emitted(cfg: Config, run: seq<Snapshot>): seq<nat> {
    if run == [] then []
    else
      var prefix, s := run[..|run| - 1], run[|run| - 1];
      var e := Fold(cfg, EMPTY, prefix);
      match Judge(e, s)
      case First => []
      case Expiry => []
      case _ => if Crossed(cfg, e, s).Some? then Emitted(cfg, prefix) + [Crossed(cfg, e, s).value] else Emitted(cfg, prefix)
  }

  ghost predicate Increasing(milestones: seq<nat>) {
    forall i, j :: 0 <= i < j < |milestones| ==> milestones[i] < milestones[j]
  }

  /** The remembered milestone is the last emitted one. */
  ghost predicate RemembersLast(e: EngineState, milestones: seq<nat>) {
    match e.window
    case None => milestones == []
    case Some(w) =>
      && (w.lastMilestone.None? <==> milestones == [])
      && (w.lastMilestone.Some? && milestones != [] ==> w.lastMilestone.value == milestones[|milestones| - 1])
  }

  lemma CrossedIsNewer(cfg: Config, e: EngineState, s: Snapshot)
    ensures Crossed(cfg, e, s).Some? ==>
              && e.window.Some?
              && Next(cfg, e, s).window.Some? && Next(cfg, e, s).window.value.lastMilestone == Crossed(cfg, e, s)
              && (e.window.value.lastMilestone.Some? ==> e.window.value.lastMilestone.value < Crossed(cfg, e, s).value)
    ensures Crossed(cfg, e, s).None? && !Judge(e, s).First? && !Judge(e, s).Expiry? ==>
              (Next(cfg, e, s).window.Some? <==> e.window.Some?)
              && (e.window.Some? ==> Next(cfg, e, s).window.value.lastMilestone == e.window.value.lastMilestone)
    ensures Judge(e, s).First? || Judge(e, s).Expiry? ==>
              Next(cfg, e, s).window.Some? && Next(cfg, e, s).window.value.lastMilestone.None?
  {
    if Judge(e, s).Accumulate? && e.window.Some? {
      var w := e.window.value;
      NewestUnemittedIsNewest(cfg, EstimatePercent(MaxReal(w.points + Judge(e, s).delta, 0.0), w.calibration), w.lastMilestone);
    }
  }

  /** Over every run, the milestones emitted within a window strictly increase, and the last of them is remembered. */
  lemma {:induction false} EmittedMilestonesIncrease(cfg: Config, run: seq<Snapshot>)
    ensures Increasing(Emitted(cfg, run)) && RemembersLast(Fold(cfg, EMPTY, run), Emitted(cfg, run))
  {
    if run != [] {
      var prefix, s := run[..|run| - 1], run[|run| - 1];
      EmittedMilestonesIncrease(cfg, prefix);
      CrossedIsNewer(cfg, Fold(cfg, EMPTY, prefix), s);
      IncreasingAppend(Emitted(cfg, prefix), Crossed(cfg, Fold(cfg, EMPTY, prefix), s));
    }
  }

  lemma IncreasingAppend(milestones: seq<nat>, m: Option<nat>)
    requires Increasing(milestones)
    ensures m.Some? && (milestones == [] || milestones[|milestones| - 1] < m.value) ==> Increasing(milestones + [m.value])
  {
  }

  /**
    A reading taken over any run: the estimate is the share of the calibration
    that the points make up, the points are never negative, the reading is of a
    snapshot of the run taken within the window, it is expired exactly once the
    window is over, and before that stale or fresh as the snapshot is old or recent.
  */
  lemma {:induction false} ReadingMeans(cfg: Config, run: seq<Snapshot>, now: Time)
    requires Fold(cfg, EMPTY, run).window.Some?
    ensures var r := ReadingFor(Fold(cfg, EMPTY, run).window.value, cfg, now, None);
            && r.weeklyPoints >= 0.0
            && r.estimate * cfg.calibration == 100.0 * r.weeklyPoints
            && r.start <= r.observedAt < r.end == r.start + cfg.duration
            && (r.status.Fresh? <==> now < r.end && now <= r.observedAt + cfg.staleAfter)
            && (r.status.Stale? <==> now < r.end && now > r.observedAt + cfg.staleAfter)
            && (r.status.Expired? <==> now >= r.end)
            && exists s :: s in run && s.at == r.observedAt
  {
    TraceFollowsEngine(cfg, run);
    EveryWindowIsBalanced(cfg, run);
    LatestIsOfRun(cfg, run);
    var t := TraceRun(cfg, run).current.value;
    assert t.window.latest in t.members;
  }

  lemma {:induction false} LatestIsOfRun(cfg: Config, run: seq<Snapshot>)
    ensures Fold(cfg, EMPTY, run).window.Some? ==> Fold(cfg, EMPTY, run).window.value.latest in run
  {
    if run != [] {
      LatestIsOfRun(cfg, run[..|run| - 1]);
    }
  }

  // ----- What is accepted -----

  ghost predicate IsUsed(run: seq<Snapshot>, id: ObservationId) {
    exists s :: s in run && s.id == id
  }

  lemma UsedOneMore(run: seq<Snapshot>, s: Snapshot, id: ObservationId)
    ensures IsUsed(run + [s], id) <==> IsUsed(run, id) || s.id == id
  {
    assert s in run + [s];
    assert forall t :: t in run ==> t in run + [s];
  }

  lemma {:induction false} SeenIsRun(cfg: Config, run: seq<Snapshot>, id: ObservationId)
    ensures id in Fold(cfg, EMPTY, run).seen <==> IsUsed(run, id)
  {
    if run != [] {
      var init, last := run[..|run| - 1], run[|run| - 1];
      SeenIsRun(cfg, init, id);
      UsedOneMore(init, last, id);
      assert run == init + [last];
    }
  }

  lemma {:induction false} FirstOpensWindow(cfg: Config, run: seq<Snapshot>)
    ensures Fold(cfg, EMPTY, run).window.None? <==> run == []
    ensures run == [] ==> Fold(cfg, EMPTY, run).seen == {}
  {
    if run != [] {
      FirstOpensWindow(cfg, run[..|run| - 1]);
    }
  }

  /** Both readings carry reset times, and the later one is of an earlier epoch, or of the same with less usage. */
  predicate FallsBack(latest: Snapshot, s: Snapshot) {
    && latest.resetsAt.Some? && s.resetsAt.Some?
    && s.resetsAt.value <= latest.resetsAt.value + JITTER
    && (s.resetsAt.value < latest.resetsAt.value - JITTER || s.used < latest.used)
  }

  /** Later than the latest snapshot, the id deciding between equal times. */
  predicate IsLater(latest: Snapshot, s: Snapshot) {
    latest.at < s.at || (latest.at == s.at && !IdAtMost(s.id, latest.id))
  }

  /**
    Over every run a snapshot is accepted exactly when its id is new and it is the
    first, or the window is over, or it is later than the latest accepted one and
    its usage does not fall back.  What is not accepted leaves the window alone.
  */
  lemma {:induction false} AcceptedExactly(cfg: Config, run: seq<Snapshot>, s: Snapshot)
    ensures var e := Fold(cfg, EMPTY, run);
            Accepts(e, s) <==>
            && !IsUsed(run, s.id)
            && (run == [] || (e.window.Some?
                              && var w := e.window.value;
                                 s.at >= w.end || (IsLater(w.latest, s) && !FallsBack(w.latest, s))))
    ensures !Accepts(Fold(cfg, EMPTY, run), s) ==>
              Fold(cfg, EMPTY, run + [s]).window == Fold(cfg, EMPTY, run).window
  {
    SeenIsRun(cfg, run, s.id);
    FirstOpensWindow(cfg, run);
    FoldAppend(cfg, EMPTY, run, s);
  }
}
