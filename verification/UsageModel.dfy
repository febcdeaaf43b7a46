/**
  The domain types of `src/model.rs`.  Instants and durations are integers in
  nanoseconds, percentages are reals, and the source file of an observation
  enters only through its place in the order of sources.
*/
module UsageModel {
  import opened Options

  type Time = int

  const SECOND: int := 1_000_000_000
  const MINUTE: int := 60 * SECOND
  const FIVE_HOUR_MINUTES: nat := 300
  const WEEKLY_MINUTES: nat := 10_080

  /** Server reset timestamps this close together denote the same quota epoch. */
  const JITTER: int := 60 * SECOND

  type Percent = p: real | 0.0 <= p <= 100.0
  type Positive = r: real | r > 0.0 witness 1.0

  datatype ObservationId = ObservationId(source: int, offset: nat)

  predicate IdAtMost(a: ObservationId, b: ObservationId) {
    a.source < b.source || (a.source == b.source && a.offset <= b.offset)
  }

  /** One server rate-limit window as read from a transcript. */
  datatype RateWindow = RateWindow(used: Percent, minutes: nat, resetsAt: Option<Time>)

  datatype Observation = Observation(
    id: ObservationId,
    at: Time,
    fiveHour: Option<RateWindow>,
    weekly: Option<RateWindow>)

  /** A validated weekly reading (`WeeklySnapshot`); its window is always 10080 minutes. */
  datatype Snapshot = Snapshot(id: ObservationId, at: Time, used: Percent, resetsAt: Option<Time>)

  /** What replay sees for a snapshot without a paired five-hour window. */
  function WeeklyOnly(s: Snapshot): Observation {
    Observation(s.id, s.at, None, Some(RateWindow(s.used, WEEKLY_MINUTES, s.resetsAt)))
  }

  predicate SnapshotAtMost(a: Snapshot, b: Snapshot) {
    a.at < b.at || (a.at == b.at && IdAtMost(a.id, b.id))
  }

  /** Observation order: by time, then by id. */
  predicate AtMost(a: Observation, b: Observation) {
    a.at < b.at || (a.at == b.at && IdAtMost(a.id, b.id))
  }

  type Config = c: TrackerConfig | c.duration > 0 && c.staleAfter > 0
    witness TrackerConfig(1.0, 1, 1, [], 1)
  type StepSize = n: nat | n > 0 witness 1

  datatype TrackerConfig = TrackerConfig(
    calibration: Positive,
    duration: Time,
    staleAfter: Time,
    thresholds: seq<nat>,
    superStep: StepSize)

  /** The reset timestamp of a window that may be missing. */
  function ResetOf(w: Option<RateWindow>): Option<Time> {
    match w
    case None => None
    case Some(window) => window.resetsAt
  }

  function UsedOr(w: Option<RateWindow>, default: Percent): Percent {
    match w
    case None => default
    case Some(window) => window.used
  }

  function Abs(x: int): int { if x < 0 then -x else x }
  function MaxTime(a: Time, b: Time): Time { if a < b then b else a }
  function MinTime(a: Time, b: Time): Time { if a < b then a else b }
  function MaxReal(a: real, b: real): real { if a < b then b else a }
}
