/**
  The full replay of `src/persistence/window_replay.rs`: every stored
  observation, in order, folded into the table of local usage windows.
*/
module WindowReplay {
  import opened Options
  import opened UsageModel
  import opened ResetClassifier
  import opened Milestones
  import Accounting

  datatype Confidence =
    | Baseline
    | PersonalPreliminary
    | PersonalCandidate
    | PersonalValidated
    | InheritedUnvalidated
    | Unsupported

  /** The calibration a window is pinned to; the id is a hash in the source. */
  datatype Calibration = Calibration(value: Positive, id: int, confidence: Confidence)

  /** What the previous windows table hands to the next replay, keyed by window start. */
  datatype Pinned = Pinned(end: Time, calibration: Calibration)

  datatype BoundaryKind =
    | InitialObservation
    | ServerEpoch
    | LocalExpiry
    | ServerBoundary(classification: Classification)

  datatype ReplayWindow = ReplayWindow(
    start: Time,
    end: Time,
    latestAt: Time,
    latestUsed: Percent,
    latestReset: Option<Time>,
    latestId: ObservationId,
    serverPercent: Option<Percent>,
    serverObservedAt: Option<Time>,
    calibration: Calibration,
    points: real,
    lastMilestone: Option<nat>,
    kind: BoundaryKind,
    boundaryAt: Time)

  /**
    Everything a replay reads besides the observations.  `profile` is the
    calibration selected for the identity stored with an observation.
  */
  datatype Env = Env(config: Config, profile: Observation -> Calibration, preserved: map<Time, Pinned>)

  // ----- Backfill of five-hour epochs -----

  /** The interval of a known epoch, widened by the jitter tolerance, covers an instant. */
  predicate Covers(known: RateWindow, at: Time) {
    var start := InferredEpochStart(known);
    start.Some? && known.resetsAt.Some?
    && start.value - JITTER <= at <= known.resetsAt.value + JITTER
  }

  /** One step of the reverse loop: the item it leaves and the epoch known further left. */
  function BackfillStep(item: Observation, known: Option<RateWindow>): (Observation, Option<RateWindow>) {
    if item.fiveHour.Some? then (item, item.fiveHour)
    else if known.None? then (item, None)
    else if Covers(known.value, item.at) then (item.(fiveHour := known), known)
    else (item, None)
  }

  /** The reverse loop over a whole run, with the epoch known to the left of it. */
  function BackfillAll(items: seq<Observation>): (r: (seq<Observation>, Option<RateWindow>))
    ensures |r.0| == |items|
  {
    if items == [] then ([], None)
    else
      var (rest, known) := BackfillAll(items[1..]);
      var (head, left) := BackfillStep(items[0], known);
      ([head] + rest, left)
  }

  function Backfilled(items: seq<Observation>): (r: seq<Observation>)
    ensures |r| == |items|
  {
    BackfillAll(items).0
  }

  method BackfillKnownFiveHourEpochs(items: array<Observation>)
    modifies items
    ensures items[..] == Backfilled(old(items[..]))
  {
    var nextKnown: Option<RateWindow> := None;
    ghost var was := items[..];
    var i := items.Length;
    while i > 0
      invariant 0 <= i <= items.Length
      invariant items[..i] == was[..i]
      invariant (items[i..], nextKnown) == BackfillAll(was[i..])
    {
      i := i - 1;
      var item := items[i];
      assert was[i..][1..] == was[i + 1..];
      assert item == was[i..][0] by { assert items[..i + 1][i] == was[..i + 1][i]; }
      if item.fiveHour.Some? {
        nextKnown := item.fiveHour;
      } else if nextKnown.Some? {
        if Covers(nextKnown.value, item.at) {
          items[i] := item.(fiveHour := nextKnown);
        } else {
          nextKnown := None;
        }
      }
      assert items[i..] == [items[i]] + items[i + 1..];
    }
    assert items[..] == items[0..] && was == was[0..];
  }

  // ----- Opening, continuing and closing a window -----

  function ServerEpochBounds(item: Observation): Option<(Time, Time)> {
    if item.fiveHour.None? || item.fiveHour.value.minutes != FIVE_HOUR_MINUTES then None
    else
      var start := InferredEpochStart(item.fiveHour.value);
      var end := item.fiveHour.value.resetsAt;
      if start.Some? && end.Some? && start.value - JITTER <= item.at <= end.value + JITTER
      then Some((start.value, end.value)) else None
  }

  /** The bounds a new window gets when the previous table has no window with the same start. */
  function OpeningBounds(cfg: Config, item: Observation, kind: BoundaryKind): (Time, Time) {
    var local := (item.at, item.at + cfg.duration);
    if kind.LocalExpiry? then local
    else
      match ServerEpochBounds(item)
      case Some(bounds) => bounds
      case None => local
  }

  function NewReplayWindow(env: Env, item: Observation, kind: BoundaryKind, boundaryAt: Time, seed: real): ReplayWindow {
    var (start, serverEnd) := OpeningBounds(env.config, item, kind);
    var pinned := if start in env.preserved then env.preserved[start] else Pinned(serverEnd, env.profile(item));
    ReplayWindow(
      start, pinned.end, item.at, UsedOr(item.weekly, 0.0), ResetOf(item.weekly), item.id,
      if item.fiveHour.Some? then Some(item.fiveHour.value.used) else None,
      if item.fiveHour.Some? then Some(item.at) else None,
      pinned.calibration, MaxReal(seed, 0.0),
      NewestMilestone(env.config, seed / pinned.calibration.value * 100.0), kind, boundaryAt)
  }

  function SeedAfterBoundary(previous: Option<Observation>, item: Observation): real {
    if item.weekly.None? then 0.0
    else if previous.None? || previous.value.weekly.None? then item.weekly.value.used
    else if SameEpoch(previous.value.weekly.value.resetsAt, item.weekly.value.resetsAt)
    then MaxReal(item.weekly.value.used - previous.value.weekly.value.used, 0.0)
    else item.weekly.value.used
  }

  function WindowTransition(w: ReplayWindow, item: Observation): Accounting.WeeklyTransition {
    Accounting.Transition(w.latestUsed, w.latestReset, UsedOr(item.weekly, w.latestUsed), ResetOf(item.weekly))
  }

  function UpdateLatest(w: ReplayWindow, item: Observation): ReplayWindow {
    w.(latestAt := item.at,
       latestUsed := UsedOr(item.weekly, w.latestUsed),
       latestReset := if item.weekly.Some? then item.weekly.value.resetsAt else w.latestReset,
       latestId := item.id,
       serverPercent := if item.fiveHour.Some? then Some(item.fiveHour.value.used) else w.serverPercent,
       serverObservedAt := if item.fiveHour.Some? then Some(item.at) else w.serverObservedAt)
  }

  function Continued(cfg: Config, w: ReplayWindow, item: Observation, delta: real): ReplayWindow {
    var points := MaxReal(w.points + delta, 0.0);
    UpdateLatest(w, item).(points := points,
                           lastMilestone := NewestMilestone(cfg, points / w.calibration.value * 100.0))
  }

  /** A split clips the closing window to the boundary it names, never past its own bounds. */
  function Closed(w: ReplayWindow, boundary: Option<Time>): ReplayWindow {
    match boundary
    case None => w
    case Some(b) => w.(end := MinTime(MaxTime(b, w.start), w.end))
  }

  // ----- The replay loop -----

  /** How an accepted observation entered the table. */
  datatype Admission = Opening | Split | Expired | Continuing

  datatype Accepted = Accepted(item: Observation, how: Admission)

  datatype ResetEvent = ResetEvent(id: ObservationId, decision: Decision)

  /**
    The loop's variables.  `accepted` lists the snapshots marked as affecting
    the meter; its last entry is `previous_accepted`.
  */
  datatype ReplayState = ReplayState(
    windows: seq<ReplayWindow>,
    current: Option<ReplayWindow>,
    accepted: seq<Accepted>,
    events: seq<ResetEvent>)

  const START: ReplayState := ReplayState([], None, [], [])

  function Previous(accepted: seq<Accepted>): Option<Observation> {
    if accepted == [] then None else Some(accepted[|accepted| - 1].item)
  }

  function DecisionFor(previous: Option<Observation>, item: Observation): Option<Decision> {
    match previous
    case None => None
    case Some(p) => Some(Classify(p, item))
  }

  predicate IsOld(decision: Option<Decision>) {
    decision.Some? && decision.value.kind == OldEpoch
  }

  predicate Splits(previous: Option<Observation>, item: Observation) {
    previous.Some? && ServerSplit(previous.value, item)
  }

  function WithEvent(events: seq<ResetEvent>, item: Observation, decision: Option<Decision>): seq<ResetEvent> {
    if decision.Some? && decision.value.kind != NoReset
    then events + [ResetEvent(item.id, decision.value)] else events
  }

  function KindOf(decision: Option<Decision>, split: bool, expired: bool, item: Observation): BoundaryKind {
    if split && decision.Some? then ServerBoundary(decision.value.kind)
    else if expired then LocalExpiry
    else if item.fiveHour.Some? then ServerEpoch
    else InitialObservation
  }

  function BoundaryOf(decision: Option<Decision>, split: bool, item: Observation): Time {
    if split && decision.Some? && decision.value.boundaryAt.Some? then decision.value.boundaryAt.value
    else
      match ServerEpochBounds(item)
      case Some(bounds) => bounds.0
      case None => item.at
  }

  function Open(env: Env, st: ReplayState, item: Observation, how: Admission): ReplayState {
    var previous := Previous(st.accepted);
    var decision := DecisionFor(previous, item);
    var split := how.Split?;
    var kind := KindOf(decision, split, how.Expired?, item);
    var closed :=
      if st.current.None? then []
      else [Closed(st.current.value, if split && decision.Some? then decision.value.boundaryAt else None)];
    var seed := if split then SeedAfterBoundary(previous, item) else 0.0;
    ReplayState(
      st.windows + closed,
      Some(NewReplayWindow(env, item, kind, BoundaryOf(decision, split, item), seed)),
      st.accepted + [Accepted(item, how)],
      WithEvent(st.events, item, decision))
  }

  /** What the loop does with an item, in the order in which it tests. */
  datatype Verdict = Drop | Admit(how: Admission) | Grow(delta: real) | Regress

  function Judge(st: ReplayState, item: Observation): Verdict {
    var previous := Previous(st.accepted);
    if IsOld(DecisionFor(previous, item)) then Drop
    else if Splits(previous, item) then Admit(Split)
    else if st.current.None? then Admit(Opening)
    else if item.at >= st.current.value.end then Admit(Expired)
    else
      match WindowTransition(st.current.value, item)
      case IgnoreRegression => Regress
      case Advance(delta) => Grow(delta)
      case Reset(delta) => Grow(delta)
  }

  function Step(env: Env, st: ReplayState, item: Observation): ReplayState {
    var events := WithEvent(st.events, item, DecisionFor(Previous(st.accepted), item));
    match Judge(st, item)
    case Drop => st.(events := events)
    case Regress => st.(events := events)
    case Admit(how) => Open(env, st, item, how)
    case Grow(delta) =>
      if st.current.None? then st
      else ReplayState(st.windows, Some(Continued(env.config, st.current.value, item, delta)),
                       st.accepted + [Accepted(item, Continuing)], events)
  }

  function Run(env: Env, items: seq<Observation>): ReplayState {
    if items == [] then START
    else Step(env, Run(env, items[..|items| - 1]), items[|items| - 1])
  }

  lemma {:induction false} RunAppend(env: Env, items: seq<Observation>, item: Observation)
    ensures Run(env, items + [item]) == Step(env, Run(env, items), item)
  {
    assert (items + [item])[..|items|] == items;
  }

  /** The windows of a run, the open one last. */
  function WindowsOf(st: ReplayState): seq<ReplayWindow> {
    if st.current.None? then st.windows else st.windows + [st.current.value]
  }

  function Rebuilt(env: Env, items: seq<Observation>): seq<ReplayWindow> {
    WindowsOf(Run(env, Backfilled(items)))
  }

  /**
    The loop of `rebuild_windows`.  Observations come in `ORDER BY` order and
    are backfilled in place before the loop starts.
  */
  method RebuildWindows(env: Env, observations: array<Observation>) returns (windows: seq<ReplayWindow>)
    modifies observations
    ensures windows == Rebuilt(env, old(observations[..]))
  {
    BackfillKnownFiveHourEpochs(observations);
    windows := [];
    var current: Option<ReplayWindow> := None;
    var previousAccepted: Option<Observation> := None;
    ghost var items := observations[..];
    ghost var run := START;
    for i := 0 to observations.Length
      invariant observations[..] == items
      invariant run == Run(env, items[..i])
      invariant windows == run.windows && current == run.current
      invariant previousAccepted == Previous(run.accepted)
    {
      var item := observations[i];
      assert items[..i + 1][..i] == items[..i];
      run := Step(env, run, item);
      var decision := DecisionFor(previousAccepted, item);
      if IsOld(decision) {
        continue;
      }
      var split := Splits(previousAccepted, item);
      var expired := current.Some? && !split && item.at >= current.value.end;
      if current.None? || split || expired {
        if current.Some? {
          windows := windows + [Closed(current.value, if split && decision.Some? then decision.value.boundaryAt else None)];
        }
        var seed := if split then SeedAfterBoundary(previousAccepted, item) else 0.0;
        current := Some(NewReplayWindow(env, item, KindOf(decision, split, expired, item),
                                        BoundaryOf(decision, split, item), seed));
      } else {
        match WindowTransition(current.value, item) {
          case IgnoreRegression => continue;
          case Advance(delta) => current := Some(Continued(env.config, current.value, item, delta));
          case Reset(delta) => current := Some(Continued(env.config, current.value, item, delta));
        }
      }
      previousAccepted := Some(item);
    }
    assert items[..observations.Length] == items;
    if current.Some? {
      windows := windows + [current.value];
    }
  }
}
