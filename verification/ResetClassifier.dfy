/**
  Reset classification (`src/reset.rs`): what a pair of consecutive accepted
  observations says about the server's five-hour and weekly quota epochs.
*/
module ResetClassifier {
  import opened Options
  import opened UsageModel

  datatype Classification =
    | NoReset
    | NaturalFiveHour
    | NaturalWeekly
    | InferredFull
    | Ambiguous
    | OldEpoch

  datatype Decision = Decision(kind: Classification, boundaryAt: Option<Time>)

  datatype EpochChange = Missing | Same | Changed | Old | Invalid

  predicate SameEpoch(left: Option<Time>, right: Option<Time>) {
    match (left, right)
    case (Some(l), Some(r)) => Abs(r - l) <= JITTER
    case (None, None) => true
    case _ => false
  }

  function InferredEpochStart(w: RateWindow): Option<Time> {
    match w.resetsAt
    case None => None
    case Some(reset) => Some(reset - w.minutes * MINUTE)
  }

  function CompareWindow(previous: Option<RateWindow>, current: Option<RateWindow>, expectedMinutes: nat): EpochChange {
    if previous.None? || current.None? then Missing
    else if previous.value.minutes != expectedMinutes || current.value.minutes != expectedMinutes then Invalid
    else if previous.value.resetsAt.None? || current.value.resetsAt.None? then Invalid
    else
      var shift := current.value.resetsAt.value - previous.value.resetsAt.value;
      if shift < -JITTER then Old
      else if Abs(shift) <= JITTER then Same
      else Changed
  }

  function ChangedStart(current: Option<RateWindow>, change: EpochChange): Option<Time> {
    if change == Changed && current.Some? then InferredEpochStart(current.value) else None
  }

  predicate ChangeIsNatural(previous: Option<RateWindow>, inferredStart: Option<Time>, observedAt: Time) {
    match ResetOf(previous)
    case None => false
    case Some(oldDeadline) =>
      var evidence := if inferredStart.Some? then inferredStart.value else observedAt;
      evidence + JITTER >= oldDeadline
  }

  function ClampBoundary(boundary: Option<Time>, previous: Time, current: Time): Option<Time> {
    match boundary
    case None => None
    case Some(b) => Some(MinTime(MaxTime(b, previous), current))
  }

  function Classify(previous: Observation, current: Observation): Decision {
    var five := CompareWindow(previous.fiveHour, current.fiveHour, FIVE_HOUR_MINUTES);
    var weekly := CompareWindow(previous.weekly, current.weekly, WEEKLY_MINUTES);
    if five == Old || weekly == Old then Decision(OldEpoch, None)
    else if five == Invalid || weekly == Invalid then Decision(Ambiguous, None)
    else if five != Changed && weekly != Changed then Decision(NoReset, None)
    else
      var fiveStart := ChangedStart(current.fiveHour, five);
      var weeklyStart := ChangedStart(current.weekly, weekly);
      var fiveNatural := ChangeIsNatural(previous.fiveHour, fiveStart, current.at);
      var weeklyNatural := ChangeIsNatural(previous.weekly, weeklyStart, current.at);
      var fiveBoundary := ClampBoundary(fiveStart, previous.at, current.at);
      var weeklyBoundary := ClampBoundary(weeklyStart, previous.at, current.at);
      if five == Changed && weekly == Changed then
        if !fiveNatural && !weeklyNatural && fiveStart.Some? && weeklyStart.Some?
           && Abs(weeklyStart.value - fiveStart.value) <= JITTER
        then Decision(InferredFull, fiveBoundary)
        else if fiveNatural then Decision(NaturalFiveHour, fiveBoundary)
        else Decision(Ambiguous, if fiveStart.Some? then fiveBoundary else weeklyBoundary)
      else if five == Changed then
        Decision(if fiveNatural then NaturalFiveHour else Ambiguous, fiveBoundary)
      else
        Decision(if weeklyNatural then NaturalWeekly else Ambiguous, weeklyBoundary)
  }

  /** Both observations show a five-hour window and the two resets are different epochs. */
  predicate FiveHourChanged(previous: Observation, current: Observation) {
    && previous.fiveHour.Some?
    && current.fiveHour.Some?
    && !SameEpoch(ResetOf(previous.fiveHour), ResetOf(current.fiveHour))
  }

  /** The test in `rebuild_windows` that starts a new local window on server evidence. */
  predicate ServerSplit(previous: Observation, current: Observation) {
    && FiveHourChanged(previous, current)
    && Classify(previous, current).kind in {NaturalFiveHour, InferredFull, Ambiguous}
  }

  /** Both windows have the expected length and a reset, and the reset moved back by more than the tolerance. */
  predicate MovedBack(previous: Option<RateWindow>, current: Option<RateWindow>, minutes: nat) {
    && previous.Some? && current.Some?
    && previous.value.minutes == minutes && current.value.minutes == minutes
    && previous.value.resetsAt.Some? && current.value.resetsAt.Some?
    && current.value.resetsAt.value + JITTER < previous.value.resetsAt.value
  }

  /**
    An observation is of an old epoch exactly when one of its windows moved back.
    It cannot be old and its predecessor old seen from it, unless one window
    moved back and the other forward.
  */
  lemma OldEpochExactly(previous: Observation, current: Observation)
    ensures Classify(previous, current).kind == OldEpoch <==>
            || MovedBack(previous.fiveHour, current.fiveHour, FIVE_HOUR_MINUTES)
            || MovedBack(previous.weekly, current.weekly, WEEKLY_MINUTES)
    ensures Classify(previous, current).kind == OldEpoch && Classify(current, previous).kind == OldEpoch ==>
            MovedBack(previous.fiveHour, current.fiveHour, FIVE_HOUR_MINUTES)
            == MovedBack(current.weekly, previous.weekly, WEEKLY_MINUTES)
  {
  }

  /** Both windows have the expected length and a reset, and the reset moved forward by more than the tolerance. */
  predicate MovedOn(previous: Option<RateWindow>, current: Option<RateWindow>, minutes: nat) {
    && previous.Some? && current.Some?
    && previous.value.minutes == minutes && current.value.minutes == minutes
    && previous.value.resetsAt.Some? && current.value.resetsAt.Some?
    && previous.value.resetsAt.value + JITTER < current.value.resetsAt.value
  }

  /** Both windows are shown, but one has another length than expected or no reset. */
  predicate Unusable(previous: Option<RateWindow>, current: Option<RateWindow>, minutes: nat) {
    && previous.Some? && current.Some?
    && !(&& previous.value.minutes == minutes && current.value.minutes == minutes
         && previous.value.resetsAt.Some? && current.value.resetsAt.Some?)
  }

  /** The window moved on, and its new epoch begins more than the tolerance before the old one was to end. */
  predicate MovedOnEarly(previous: Option<RateWindow>, current: Option<RateWindow>, minutes: nat) {
    && MovedOn(previous, current, minutes)
    && current.value.resetsAt.value - minutes * MINUTE + JITTER < previous.value.resetsAt.value
  }

  /** The new epochs of both windows begin within the tolerance of each other. */
  predicate StartTogether(five: Option<RateWindow>, weekly: Option<RateWindow>) {
    && five.Some? && five.value.resetsAt.Some? && weekly.Some? && weekly.value.resetsAt.Some?
    && var apart := (weekly.value.resetsAt.value - WEEKLY_MINUTES * MINUTE)
                    - (five.value.resetsAt.value - FIVE_HOUR_MINUTES * MINUTE);
       -JITTER <= apart <= JITTER
  }

  /**
    Each classification, from the two readings alone.  A five-hour window that
    moved on once its deadline was reached is a natural reset whatever the weekly
    one did; a weekly one counts only if the five-hour window stayed; both early
    and together are a full reset; every other change is ambiguous.
  */
  lemma KindsExactly(previous: Observation, current: Observation)
    ensures var kind := Classify(previous, current).kind;
            var (five, weekly) := ((previous.fiveHour, current.fiveHour), (previous.weekly, current.weekly));
            var back := MovedBack(five.0, five.1, FIVE_HOUR_MINUTES) || MovedBack(weekly.0, weekly.1, WEEKLY_MINUTES);
            var unusable := Unusable(five.0, five.1, FIVE_HOUR_MINUTES) || Unusable(weekly.0, weekly.1, WEEKLY_MINUTES);
            var fiveOn, weeklyOn := MovedOn(five.0, five.1, FIVE_HOUR_MINUTES), MovedOn(weekly.0, weekly.1, WEEKLY_MINUTES);
            var fiveEarly := MovedOnEarly(five.0, five.1, FIVE_HOUR_MINUTES);
            var weeklyEarly := MovedOnEarly(weekly.0, weekly.1, WEEKLY_MINUTES);
            var full := fiveEarly && weeklyEarly && StartTogether(five.1, weekly.1);
            && (kind == OldEpoch <==> back)
            && (kind == NoReset <==> !back && !unusable && !fiveOn && !weeklyOn)
            && (kind == InferredFull <==> full)
            && (kind == NaturalFiveHour <==> !back && !unusable && fiveOn && !fiveEarly)
            && (kind == NaturalWeekly <==> !back && !unusable && !fiveOn && weeklyOn && !weeklyEarly)
            && (kind == Ambiguous <==> !back && (unusable || (if fiveOn then fiveEarly && !full else weeklyEarly)))
  {
  }

  /**
    A boundary is reported exactly for a usable change: the start of the new
    five-hour epoch if that window moved on, of the new weekly one otherwise,
    moved to the nearest instant between the two observations.
  */
  lemma BoundaryExactly(previous: Observation, current: Observation)
    requires previous.at <= current.at
    ensures var b := Classify(previous, current).boundaryAt;
            var fiveOn := MovedOn(previous.fiveHour, current.fiveHour, FIVE_HOUR_MINUTES);
            var start := if fiveOn then current.fiveHour.value.resetsAt.value - FIVE_HOUR_MINUTES * MINUTE
                         else if MovedOn(previous.weekly, current.weekly, WEEKLY_MINUTES)
                         then current.weekly.value.resetsAt.value - WEEKLY_MINUTES * MINUTE
                         else 0;
            && (b.Some? <==>
                  && !MovedBack(previous.fiveHour, current.fiveHour, FIVE_HOUR_MINUTES)
                  && !MovedBack(previous.weekly, current.weekly, WEEKLY_MINUTES)
                  && !Unusable(previous.fiveHour, current.fiveHour, FIVE_HOUR_MINUTES)
                  && !Unusable(previous.weekly, current.weekly, WEEKLY_MINUTES)
                  && (fiveOn || MovedOn(previous.weekly, current.weekly, WEEKLY_MINUTES)))
            && (b.Some? ==>
                  && previous.at <= b.value <= current.at
                  && (previous.at < b.value ==> b.value <= start)
                  && (b.value < current.at ==> start <= b.value))
  {
  }

  /** Both readings show a five-hour window, and their resets are apart or only one is known. */
  predicate FiveHourApart(previous: Observation, current: Observation) {
    && previous.fiveHour.Some? && current.fiveHour.Some?
    && match (previous.fiveHour.value.resetsAt, current.fiveHour.value.resetsAt)
       case (Some(was), Some(now)) => now < was - JITTER || was + JITTER < now
       case (None, None) => false
       case _ => true
  }

  /**
    Five-hour epochs that are apart split unless the observation is of an old
    epoch: the three classifications tested by the source leave no other case out.
  */
  lemma SplitExactly(previous: Observation, current: Observation)
    ensures ServerSplit(previous, current) <==>
            && FiveHourApart(previous, current)
            && !MovedBack(previous.fiveHour, current.fiveHour, FIVE_HOUR_MINUTES)
            && !MovedBack(previous.weekly, current.weekly, WEEKLY_MINUTES)
  {
  }

  /** Every reported boundary lies between the two observations it separates. */
  lemma BoundaryBetween(previous: Observation, current: Observation)
    requires previous.at <= current.at
    ensures var b := Classify(previous, current).boundaryAt;
            b.Some? ==> previous.at <= b.value <= current.at
  {
  }

  /**
    A split that names a boundary names the start of the new five-hour epoch,
    moved into the interval between the two observations.  A split without a
    boundary is one where duration or reset evidence is missing or conflicting.
  */
  lemma SplitBoundary(previous: Observation, current: Observation)
    requires ServerSplit(previous, current)
    ensures Classify(previous, current).boundaryAt.Some? ==>
              && current.fiveHour.value.minutes == FIVE_HOUR_MINUTES
              && current.fiveHour.value.resetsAt.Some?
              && Classify(previous, current).boundaryAt ==
                 ClampBoundary(InferredEpochStart(current.fiveHour.value), previous.at, current.at)
    ensures Classify(previous, current).boundaryAt.None? ==>
              Classify(previous, current).kind == Ambiguous
  {
  }

  /**
    Jitter is invisible: shifting every reset timestamp of the new observation
    by no more than the tolerance of the previous one never causes a reset.
  */
  lemma JitterIsNotAReset(previous: Observation, current: Observation)
    requires forall w :: w in [(previous.fiveHour, current.fiveHour, FIVE_HOUR_MINUTES),
                               (previous.weekly, current.weekly, WEEKLY_MINUTES)] ==>
               w.0.None? || w.1.None?
               || (w.0.value.minutes == w.1.value.minutes == w.2
                   && w.0.value.resetsAt.Some? && w.1.value.resetsAt.Some?
                   && SameEpoch(w.0.value.resetsAt, w.1.value.resetsAt))
    ensures Classify(previous, current) == Decision(NoReset, None)
    ensures !ServerSplit(previous, current)
  {
    var pairs := [(previous.fiveHour, current.fiveHour, FIVE_HOUR_MINUTES),
                  (previous.weekly, current.weekly, WEEKLY_MINUTES)];
    assert pairs[0] in pairs && pairs[1] in pairs;
  }
}
