/**
  Warning milestones.  The engine remembers the last milestone it emitted and
  looks for a newer one (`src/calculate.rs`); replay computes the newest
  milestone from the estimate alone (`src/persistence/window_replay.rs`).
*/
module Milestones {
  import opened Options
  import opened UsageModel

  function EstimatePercent(weeklyPoints: real, calibration: Positive): real {
    MaxReal(weeklyPoints, 0.0) / calibration * 100.0
  }

  function GreaterOf(a: Option<nat>, b: nat): Option<nat> {
    match a
    case None => Some(b)
    case Some(x) => Some(if x < b then b else x)
  }

  /** The greatest threshold above `floor` that the estimate has reached. */
  function GreatestThreshold(thresholds: seq<nat>, estimate: real, floor: Option<nat>): Option<nat> {
    if thresholds == [] then None
    else
      var rest := GreatestThreshold(thresholds[1..], estimate, floor);
      var t := thresholds[0];
      if t as real <= estimate && (floor.None? || t > floor.value) then GreaterOf(rest, t) else rest
  }

  /** `100 + ((floor(estimate) - 100) / step) * step` for an estimate of at least 100. */
  function SuperMilestone(estimate: real, step: StepSize): nat
    requires estimate >= 100.0
  {
    100 + ((estimate.Floor - 100) / step) * step
  }

  /** Replay's stateless choice. */
  function NewestMilestone(cfg: Config, estimate: real): Option<nat> {
    var threshold := GreatestThreshold(cfg.thresholds, estimate, None);
    if estimate >= 100.0 && SuperMilestone(estimate, cfg.superStep) > 100
    then GreaterOf(threshold, SuperMilestone(estimate, cfg.superStep))
    else threshold
  }

  /** The engine's choice, given the milestone it emitted last. */
  function NewestUnemitted(cfg: Config, estimate: real, lastEmitted: Option<nat>): Option<nat> {
    var last := if lastEmitted.Some? then lastEmitted.value else 0;
    var threshold := GreatestThreshold(cfg.thresholds, estimate, Some(last));
    if estimate >= 100.0
       && SuperMilestone(estimate, cfg.superStep) > 100
       && SuperMilestone(estimate, cfg.superStep) > last
    then GreaterOf(threshold, SuperMilestone(estimate, cfg.superStep))
    else threshold
  }

  function SuperAt(k: nat, step: StepSize): nat {
    100 + k * step
  }

  ghost predicate IsSuper(m: nat, step: StepSize) {
    exists k: nat :: k >= 1 && m == SuperAt(k, step)
  }

  /** A milestone is a configured threshold or `100 + k * step` for some `k >= 1`. */
  ghost predicate IsMilestone(cfg: Config, m: nat) {
    m in cfg.thresholds || IsSuper(m, cfg.superStep)
  }

  ghost predicate Reached(cfg: Config, m: nat, estimate: real) {
    IsMilestone(cfg, m) && m as real <= estimate
  }

  ghost predicate PositiveThresholds(cfg: Config) {
    0 !in cfg.thresholds
  }

  /** `r` is the greatest reached milestone above `floor`, or `None` when there is none. */
  ghost predicate IsNewest(cfg: Config, estimate: real, floor: int, r: Option<nat>) {
    && (r.Some? ==> Reached(cfg, r.value, estimate) && r.value > floor)
    && (forall m: nat :: Reached(cfg, m, estimate) && m > floor ==> r.Some? && m <= r.value)
  }

  lemma {:induction false} GreatestThresholdIsGreatest(ts: seq<nat>, estimate: real, floor: Option<nat>)
    ensures var r := GreatestThreshold(ts, estimate, floor);
            && (r.Some? ==> r.value in ts && r.value as real <= estimate && (floor.None? || r.value > floor.value))
            && (forall t :: t in ts && t as real <= estimate && (floor.None? || t > floor.value)
                  ==> r.Some? && t <= r.value)
  {
    if ts == [] {
    } else {
      GreatestThresholdIsGreatest(ts[1..], estimate, floor);
      assert forall t :: t in ts <==> t == ts[0] || t in ts[1..];
    }
  }

  lemma TimesMonotone(a: int, b: int, step: StepSize)
    requires a <= b
    ensures a * step <= b * step
  {
  }

  lemma QuotientBounds(n: nat, step: StepSize)
    ensures (n / step) * step <= n < (n / step + 1) * step
  {
    var q, r := n / step, n % step;
    assert n == step * q + r;
  }

  lemma QuotientIsGreatest(k: nat, q: nat, n: nat, step: StepSize)
    requires k * step <= n < (q + 1) * step
    ensures k <= q
  {
    if q + 1 <= k {
      TimesMonotone(q + 1, k, step);
    }
  }

  lemma SuperAtMost(m: nat, n: nat, step: StepSize)
    requires IsSuper(m, step) && m <= n + 100
    ensures m <= SuperAt(n / step, step)
  {
    var k: nat :| k >= 1 && m == SuperAt(k, step);
    QuotientBounds(n, step);
    QuotientIsGreatest(k, n / step, n, step);
    TimesMonotone(k, n / step, step);
  }

  lemma SuperMilestoneIsGreatest(cfg: Config, estimate: real)
    requires estimate >= 100.0
    ensures var s := SuperMilestone(estimate, cfg.superStep);
            && s as real <= estimate
            && (s > 100 ==> IsSuper(s, cfg.superStep))
            && (forall m: nat :: IsSuper(m, cfg.superStep) && m as real <= estimate ==> m <= s)
  {
    var n := estimate.Floor - 100;
    var q := n / cfg.superStep;
    var s := SuperMilestone(estimate, cfg.superStep);
    QuotientBounds(n, cfg.superStep);
    assert s == SuperAt(q, cfg.superStep);
    if q == 0 {
      assert s == 100;
    }
    forall m: nat | IsSuper(m, cfg.superStep) && m as real <= estimate ensures m <= s {
      SuperAtMost(m, n, cfg.superStep);
    }
  }

  lemma SuperAbove100(m: nat, step: StepSize)
    requires IsSuper(m, step)
    ensures m > 100
  {
    var k: nat :| k >= 1 && m == SuperAt(k, step);
    TimesMonotone(1, k, step);
  }

  lemma SupersAreUnreached(cfg: Config, estimate: real)
    requires estimate < 100.0
    ensures forall m: nat :: IsSuper(m, cfg.superStep) ==> estimate < m as real
  {
    forall m: nat | IsSuper(m, cfg.superStep) ensures estimate < m as real {
      SuperAbove100(m, cfg.superStep);
    }
  }

  lemma NewestMilestoneIsNewest(cfg: Config, estimate: real)
    ensures IsNewest(cfg, estimate, -1, NewestMilestone(cfg, estimate))
  {
    GreatestThresholdIsGreatest(cfg.thresholds, estimate, None);
    if estimate >= 100.0 {
      SuperMilestoneIsGreatest(cfg, estimate);
    } else {
      SupersAreUnreached(cfg, estimate);
    }
  }

  lemma NewestUnemittedIsNewest(cfg: Config, estimate: real, lastEmitted: Option<nat>)
    ensures IsNewest(cfg, estimate, if lastEmitted.Some? then lastEmitted.value else 0,
                     NewestUnemitted(cfg, estimate, lastEmitted))
  {
    var last := if lastEmitted.Some? then lastEmitted.value else 0;
    GreatestThresholdIsGreatest(cfg.thresholds, estimate, Some(last));
    if estimate >= 100.0 {
      SuperMilestoneIsGreatest(cfg, estimate);
    } else {
      SupersAreUnreached(cfg, estimate);
    }
  }

  /**
    One step of the engine keeps its remembered milestone equal to the
    stateless one, and what it emits is larger than what it emitted before.
  */
  lemma MilestoneStep(cfg: Config, before: real, after: real)
    requires PositiveThresholds(cfg) && before <= after
    ensures var last := NewestMilestone(cfg, before);
            var emitted := NewestUnemitted(cfg, after, last);
            && (if emitted.Some? then emitted else last) == NewestMilestone(cfg, after)
            && (emitted.Some? && last.Some? ==> last.value < emitted.value)
  {
    var last := NewestMilestone(cfg, before);
    NewestMilestoneIsNewest(cfg, before);
    NewestMilestoneIsNewest(cfg, after);
    NewestUnemittedIsNewest(cfg, after, last);
    forall m: nat | Reached(cfg, m, after) ensures m > 0 {
      if IsSuper(m, cfg.superStep) {
        SuperAbove100(m, cfg.superStep);
      }
    }
    var emitted := NewestUnemitted(cfg, after, last);
    var newest := NewestMilestone(cfg, after);
    if last.Some? {
      assert Reached(cfg, last.value, after);
    }
    if emitted.Some? {
      assert newest.Some? && emitted.value <= newest.value;
      assert Reached(cfg, newest.value, after);
    } else if newest.Some? {
      assert Reached(cfg, newest.value, after);
    }
  }

  /**
    The stateless milestone of an empty window is `None` exactly when no
    threshold is zero; the engine always starts a window with `None`, so this
    decides whether the two meters agree at all.
  */
  lemma EmptyWindowMilestone(cfg: Config)
    ensures NewestMilestone(cfg, 0.0) == None <==> PositiveThresholds(cfg)
  {
    NewestMilestoneIsNewest(cfg, 0.0);
    if !PositiveThresholds(cfg) {
      assert Reached(cfg, 0, 0.0);
    }
  }

  lemma EstimateGrows(before: real, after: real, calibration: Positive)
    requires 0.0 <= before <= after
    ensures 0.0 <= EstimatePercent(before, calibration) <= EstimatePercent(after, calibration)
  {
    assert before / calibration <= after / calibration;
  }
}
