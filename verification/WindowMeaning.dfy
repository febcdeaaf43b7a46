/**
  What the rows of the windows table say (`src/persistence/window_replay.rs`):
  every window of every replay summarises the readings accepted into it.
*/
module WindowMeaning {
  import opened Options
  import opened UsageModel
  import opened ResetClassifier
  import opened Milestones
  import opened WindowReplay
  import opened ReplayInvariants
  import Accounting

  /** The accepted readings of each window: one that does not continue the open window begins the next. */
  function Members(accepted: seq<Accepted>): (groups: seq<seq<Accepted>>)
    ensures forall i :: 0 <= i < |groups| ==> groups[i] != []
    ensures accepted != [] ==> groups != []
  {
    if accepted == [] then []
    else
      var groups, a := Members(accepted[..|accepted| - 1]), accepted[|accepted| - 1];
      var n := |groups|;
      if a.how.Continuing? && n > 0 then groups[..n - 1] + [groups[n - 1] + [a]] else groups + [[a]]
  }

  ghost predicate HaveWeekly(readings: seq<Accepted>) {
    forall i :: 0 <= i < |readings| ==> readings[i].item.weekly.Some?
  }

  // ----- What a window says of its readings -----

  /** The reading shows a full five-hour epoch that covers it, give or take the tolerance. */
  predicate InEpoch(item: Observation) {
    && item.fiveHour.Some? && item.fiveHour.value.minutes == FIVE_HOUR_MINUTES
    && item.fiveHour.value.resetsAt.Some?
    && var reset := item.fiveHour.value.resetsAt.value;
       reset - FIVE_HOUR_MINUTES * MINUTE - JITTER <= item.at <= reset + JITTER
  }

  /** A window starts with the five-hour epoch of its first reading, or with that reading. */
  ghost predicate StartsWith(w: ReplayWindow, first: Accepted) {
    w.start == if first.how.Expired? || !InEpoch(first.item) then first.item.at
               else first.item.fiveHour.value.resetsAt.value - FIVE_HOUR_MINUTES * MINUTE
  }

  ghost predicate CalibratedBy(env: Env, w: ReplayWindow, first: Accepted) {
    w.calibration == if w.start in env.preserved then env.preserved[w.start].calibration else env.profile(first.item)
  }

  /** Why and where a window began. */
  ghost predicate BeganAs(w: ReplayWindow, first: Accepted, before: Option<Accepted>) {
    if first.how.Split? then
      && before.Some?
      && var decision := Classify(before.value.item, first.item);
         && w.kind == ServerBoundary(decision.kind)
         && w.boundaryAt == if decision.boundaryAt.Some? then decision.boundaryAt.value
                            else if InEpoch(first.item)
                            then first.item.fiveHour.value.resetsAt.value - FIVE_HOUR_MINUTES * MINUTE
                            else first.item.at
    else
      && (w.kind == LocalExpiry <==> first.how.Expired?)
      && (w.kind == ServerEpoch <==> !first.how.Expired? && first.item.fiveHour.Some?)
      && (w.kind == InitialObservation <==> !first.how.Expired? && first.item.fiveHour.None?)
      && w.boundaryAt == if InEpoch(first.item)
                         then first.item.fiveHour.value.resetsAt.value - FIVE_HOUR_MINUTES * MINUTE
                         else first.item.at
  }

  /** The index of the last reading with a five-hour window, or -1. */
  function NewestFiveHour(readings: seq<Accepted>): (i: int)
    ensures -1 <= i < |readings|
    ensures i >= 0 ==> readings[i].item.fiveHour.Some?
    ensures forall k :: i < k < |readings| ==> readings[k].item.fiveHour.None?
  {
    var n := |readings|;
    if n == 0 then -1
    else if readings[n - 1].item.fiveHour.Some? then n - 1
    else NewestFiveHour(readings[..n - 1])
  }

  /** The server's own five-hour reading is the newest among the window's readings. */
  ghost predicate ServerSays(w: ReplayWindow, readings: seq<Accepted>) {
    var i := NewestFiveHour(readings);
    if i < 0 then w.serverPercent == None && w.serverObservedAt == None
    else w.serverPercent == Some(readings[i].item.fiveHour.value.used)
         && w.serverObservedAt == Some(readings[i].item.at)
  }

  /** What moving on from one reading to the next adds. */
  function Moved(previous: Observation, next: Observation): real {
    var t := Accounting.Transition(UsedOr(previous.weekly, 0.0), ResetOf(previous.weekly),
                                   UsedOr(next.weekly, 0.0), ResetOf(next.weekly));
    if t.IgnoreRegression? then 0.0 else t.delta
  }

  function Movement(readings: seq<Accepted>): real {
    var n := |readings|;
    if n < 2 then 0.0
    else Movement(readings[..n - 1]) + Moved(readings[n - 2].item, readings[n - 1].item)
  }

  /** A window's points: the growth across the split that began it, and every movement within it. */
  ghost predicate Adds(w: ReplayWindow, readings: seq<Accepted>, before: Option<Accepted>)
    requires readings != [] && HaveWeekly(readings)
  {
    && 0.0 <= w.points
    && (readings[0].how.Split? ==> before.Some? && before.value.item.weekly.Some?)
    && w.points == Movement(readings)
                   + if readings[0].how.Split? then Growth(before.value.item, readings[0].item) else 0.0
  }

  /** The remembered milestone is the greatest one the window's own estimate has reached. */
  ghost predicate MilestoneFits(cfg: Config, w: ReplayWindow) {
    IsNewest(cfg, EstimatePercent(w.points, w.calibration.value), -1, w.lastMilestone)
  }

  ghost predicate Summarises(env: Env, w: ReplayWindow, readings: seq<Accepted>, before: Option<Accepted>) {
    && readings != [] && HaveWeekly(readings)
    && StartsWith(w, readings[0])
    && CalibratedBy(env, w, readings[0])
    && BeganAs(w, readings[0], before)
    && LatestIs(w, readings[|readings| - 1].item)
    && ServerSays(w, readings)
    && Adds(w, readings, before)
    && MilestoneFits(env.config, w)
  }

  /** The end a window is opened with: pinned, or that of its epoch, or one duration on. */
  function OpenedEnd(env: Env, start: Time, first: Accepted): Time {
    if start in env.preserved then env.preserved[start].end
    else if first.how.Expired? || !InEpoch(first.item) then first.item.at + env.config.duration
    else first.item.fiveHour.value.resetsAt.value
  }

  /** Only a split that names a boundary moves the end, to that boundary, and never out of the window. */
  ghost predicate EndsRight(env: Env, w: ReplayWindow, first: Accepted, last: Accepted, next: Option<Accepted>) {
    var given := OpenedEnd(env, w.start, first);
    if next.Some? && next.value.how.Split? && Classify(last.item, next.value.item).boundaryAt.Some?
    then
      var boundary := Classify(last.item, next.value.item).boundaryAt.value;
      w.end == if given <= boundary || given <= w.start then given else MaxTime(boundary, w.start)
    else w.end == given
  }

  /** Readings after the first precede the end the window is opened with. */
  ghost predicate ContinueBefore(readings: seq<Accepted>, end: Time) {
    forall k :: 0 < k < |readings| ==> readings[k].item.at < end
  }

  ghost predicate Fits(env: Env, w: ReplayWindow, readings: seq<Accepted>, before: Option<Accepted>, next: Option<Accepted>) {
    && Summarises(env, w, readings, before)
    && EndsRight(env, w, readings[0], readings[|readings| - 1], next)
    && ContinueBefore(readings, OpenedEnd(env, w.start, readings[0]))
  }

  // ----- A window by itself -----

  lemma OpenFitsAlone(env: Env, st: ReplayState, item: Observation, how: Admission)
    requires Tracks(st) && item.weekly.Some? && HaveWeekly(st.accepted)
    requires Judge(st, item) == Admit(how)
    ensures var w := Open(env, st, item, how).current.value;
            var before := if st.accepted == [] then None else Some(st.accepted[|st.accepted| - 1]);
            Fits(env, w, [Accepted(item, how)], before, None)
  {
    var w := Open(env, st, item, how).current.value;
    NewestMilestoneIsNewest(env.config, EstimatePercent(w.points, w.calibration.value));
  }

  lemma {:induction false} ServerSaysOneMore(w: ReplayWindow, after: ReplayWindow, readings: seq<Accepted>, a: Accepted)
    requires ServerSays(w, readings)
    requires after.serverPercent == if a.item.fiveHour.Some? then Some(a.item.fiveHour.value.used) else w.serverPercent
    requires after.serverObservedAt == if a.item.fiveHour.Some? then Some(a.item.at) else w.serverObservedAt
    ensures ServerSays(after, readings + [a])
  {
    assert (readings + [a])[..|readings|] == readings;
  }

  lemma {:induction false} MovementOneMore(readings: seq<Accepted>, a: Accepted)
    requires readings != []
    ensures Movement(readings + [a]) == Movement(readings) + Moved(readings[|readings| - 1].item, a.item)
  {
    assert (readings + [a])[..|readings|] == readings;
  }

  predicate MayContinue(w: ReplayWindow, item: Observation, delta: real) {
    !WindowTransition(w, item).IgnoreRegression? && WindowTransition(w, item).delta == delta
  }

  lemma ContinuedFits(env: Env, w: ReplayWindow, item: Observation, delta: real,
                      readings: seq<Accepted>, before: Option<Accepted>)
    requires Fits(env, w, readings, before, None) && item.weekly.Some?
    requires item.at < w.end
    requires MayContinue(w, item, delta)
    ensures Fits(env, Continued(env.config, w, item, delta), readings + [Accepted(item, Continuing)], before, None)
  {
    var a, after := Accepted(item, Continuing), Continued(env.config, w, item, delta);
    MovementOneMore(readings, a);
    ServerSaysOneMore(w, after, readings, a);
    NewestMilestoneIsNewest(env.config, EstimatePercent(after.points, after.calibration.value));
    assert (readings + [a])[0] == readings[0];
  }

  lemma ClosedFits(env: Env, w: ReplayWindow, readings: seq<Accepted>, before: Option<Accepted>, next: Accepted)
    requires Fits(env, w, readings, before, None)
    ensures var boundary := if next.how.Split? then Classify(readings[|readings| - 1].item, next.item).boundaryAt else None;
            Fits(env, Closed(w, boundary), readings, before, Some(next))
  {
  }

  // ----- Every window of a run -----

  /** The reading just before a group. */
  function Before(groups: seq<seq<Accepted>>, i: nat): Option<Accepted>
    requires i < |groups| && forall k :: 0 <= k < |groups| ==> groups[k] != []
  {
    if i == 0 then None else Some(groups[i - 1][|groups[i - 1]| - 1])
  }

  /** The reading that began the next group. */
  function After(groups: seq<seq<Accepted>>, i: nat): Option<Accepted>
    requires i < |groups| && forall k :: 0 <= k < |groups| ==> groups[k] != []
  {
    if i + 1 == |groups| then None else Some(groups[i + 1][0])
  }

  ghost predicate WindowFits(env: Env, w: ReplayWindow, groups: seq<seq<Accepted>>, i: nat)
    requires i < |groups| && forall k :: 0 <= k < |groups| ==> groups[k] != []
  {
    Fits(env, w, groups[i], Before(groups, i), After(groups, i))
  }

  ghost predicate TableFits(env: Env, ws: seq<ReplayWindow>, groups: seq<seq<Accepted>>) {
    && |ws| == |groups|
    && (forall k :: 0 <= k < |groups| ==> groups[k] != [])
    && forall i :: 0 <= i < |groups| ==> WindowFits(env, ws[i], groups, i)
  }

  lemma {:induction false} MembersOneMore(accepted: seq<Accepted>, a: Accepted)
    ensures var groups := Members(accepted);
            var n := |groups|;
            Members(accepted + [a]) == if a.how.Continuing? && n > 0
                                       then groups[..n - 1] + [groups[n - 1] + [a]] else groups + [[a]]
  {
    assert (accepted + [a])[..|accepted|] == accepted;
  }

  /** The last group ends with the last accepted reading. */
  lemma {:induction false} MembersEnd(accepted: seq<Accepted>)
    requires accepted != []
    ensures var groups := Members(accepted);
            var last := groups[|groups| - 1];
            last[|last| - 1] == accepted[|accepted| - 1]
  {
  }

  lemma FitsWithNext(env: Env, ws: seq<ReplayWindow>, groups: seq<seq<Accepted>>, a: Accepted,
                     closed: ReplayWindow, next: ReplayWindow)
    requires groups != [] && TableFits(env, ws, groups)
    requires var n := |groups|;
             && Fits(env, closed, groups[n - 1], Before(groups, n - 1), Some(a))
             && Fits(env, next, [a], Some(groups[n - 1][|groups[n - 1]| - 1]), None)
    ensures TableFits(env, ws[..|ws| - 1] + [closed, next], groups + [[a]])
  {
    var n := |ws|;
    var more, table := groups + [[a]], ws[..n - 1] + [closed, next];
    forall i | 0 <= i < |more| ensures WindowFits(env, table[i], more, i) {
      if i < n - 1 {
        Unmoved(env, ws[i], groups, more, i);
      }
    }
  }

  /** A window that is not the last fits the same groups in a longer list. */
  lemma Unmoved(env: Env, w: ReplayWindow, groups: seq<seq<Accepted>>, more: seq<seq<Accepted>>, i: nat)
    requires i + 1 < |groups| && i + 1 < |more|
    requires forall k :: 0 <= k < |groups| ==> groups[k] != []
    requires forall k :: 0 <= k < |more| ==> more[k] != []
    requires WindowFits(env, w, groups, i)
    requires more[..i + 1] == groups[..i + 1] && more[i + 1][0] == groups[i + 1][0]
    ensures WindowFits(env, w, more, i)
  {
    assert forall k :: 0 <= k <= i ==> more[k] == more[..i + 1][k] == groups[k];
  }

  lemma FitsContinued(env: Env, ws: seq<ReplayWindow>, groups: seq<seq<Accepted>>, last: seq<Accepted>, after: ReplayWindow)
    requires groups != [] && TableFits(env, ws, groups)
    requires var n := |groups|;
             && last != [] && last[0] == groups[n - 1][0]
             && Fits(env, after, last, Before(groups, n - 1), None)
    ensures var n := |groups|;
            TableFits(env, ws[..n - 1] + [after], groups[..n - 1] + [last])
  {
    var n := |ws|;
    var more, table := groups[..n - 1] + [last], ws[..n - 1] + [after];
    forall i | 0 <= i < |more| ensures WindowFits(env, table[i], more, i) {
      if i < n - 1 {
        Unmoved(env, ws[i], groups, more, i);
      } else {
        assert Before(more, i) == Before(groups, i);
      }
    }
  }

  /** The last window is alone with the last group. */
  lemma LastFits(env: Env, ws: seq<ReplayWindow>, groups: seq<seq<Accepted>>)
    requires groups != [] && TableFits(env, ws, groups)
    ensures Fits(env, ws[|ws| - 1], groups[|ws| - 1], Before(groups, |ws| - 1), None)
  {
    assert WindowFits(env, ws[|ws| - 1], groups, |ws| - 1);
  }

  lemma FirstFits(env: Env, a: Accepted, w: ReplayWindow)
    requires Fits(env, w, [a], None, None)
    ensures TableFits(env, [w], [[a]])
  {
  }

  lemma AddWindow(env: Env, ws: seq<ReplayWindow>, groups: seq<seq<Accepted>>, a: Accepted, last: Accepted,
                  closed: ReplayWindow, next: ReplayWindow)
    requires groups != [] && TableFits(env, ws, groups)
    requires var n := |groups|; last == groups[n - 1][|groups[n - 1]| - 1]
    requires closed == Closed(ws[|ws| - 1], if a.how.Split? then Classify(last.item, a.item).boundaryAt else None)
    requires Fits(env, next, [a], Some(last), None)
    ensures TableFits(env, ws[..|ws| - 1] + [closed, next], groups + [[a]])
  {
    var n := |ws|;
    LastFits(env, ws, groups);
    ClosedFits(env, ws[n - 1], groups[n - 1], Before(groups, n - 1), a);
    FitsWithNext(env, ws, groups, a, closed, next);
  }

  lemma GrowWindow(env: Env, ws: seq<ReplayWindow>, groups: seq<seq<Accepted>>, item: Observation, delta: real, w: ReplayWindow)
    requires groups != [] && TableFits(env, ws, groups) && item.weekly.Some?
    requires item.at < ws[|ws| - 1].end && MayContinue(ws[|ws| - 1], item, delta)
    requires w == Continued(env.config, ws[|ws| - 1], item, delta)
    ensures var n := |groups|;
            TableFits(env, ws[..n - 1] + [w], groups[..n - 1] + [groups[n - 1] + [Accepted(item, Continuing)]])
  {
    var n := |ws|;
    LastFits(env, ws, groups);
    ContinuedFits(env, ws[n - 1], item, delta, groups[n - 1], Before(groups, n - 1));
    FitsContinued(env, ws, groups, groups[n - 1] + [Accepted(item, Continuing)], w);
  }

  /** The shape of a step that opens a window: the first one, or the next one after closing the open one. */
  ghost predicate Extends(st: ReplayState, after: ReplayState, a: Accepted)
    requires st.current.Some? ==> st.accepted != []
  {
    var ws, w := WindowsOf(st), after.current;
    && w.Some? && after.accepted == st.accepted + [a]
    && if st.current.None? then WindowsOf(after) == [w.value]
       else
         var last := st.accepted[|st.accepted| - 1];
         var boundary := if a.how.Split? then Classify(last.item, a.item).boundaryAt else None;
         WindowsOf(after) == ws[..|ws| - 1] + [Closed(ws[|ws| - 1], boundary), w.value]
  }

  lemma OpenStep(env: Env, st: ReplayState, item: Observation, how: Admission)
    requires Tracks(st) && Judge(st, item) == Admit(how)
    ensures Extends(st, Open(env, st, item, how), Accepted(item, how))
  {
    var after := Open(env, st, item, how);
    if st.current.Some? {
      var ws := WindowsOf(st);
      assert ws[..|ws| - 1] == st.windows;
      assert WindowsOf(after) == st.windows + [after.windows[|st.windows|], after.current.value];
    } else {
      assert WindowsOf(after) == [after.current.value];
    }
  }

  /** A step that opens a window, as its shape and the new window. */
  lemma OpenedStep(env: Env, st: ReplayState, item: Observation, how: Admission) returns (after: ReplayState)
    requires Tracks(st) && HaveWeekly(st.accepted) && item.weekly.Some? && Judge(st, item) == Admit(how)
    ensures after == Step(env, st, item) && Extends(st, after, Accepted(item, how))
    ensures Fits(env, after.current.value, [Accepted(item, how)],
                 if st.accepted == [] then None else Some(st.accepted[|st.accepted| - 1]), None)
  {
    after := Open(env, st, item, how);
    OpenFitsAlone(env, st, item, how);
    OpenStep(env, st, item, how);
  }

  lemma OpenFits(env: Env, st: ReplayState, item: Observation, how: Admission) returns (after: ReplayState)
    requires Tracks(st) && HaveWeekly(st.accepted) && item.weekly.Some?
    requires TableFits(env, WindowsOf(st), Members(st.accepted))
    requires Judge(st, item) == Admit(how)
    ensures after == Step(env, st, item) && after.accepted == st.accepted + [Accepted(item, how)]
    ensures TableFits(env, WindowsOf(after), Members(after.accepted))
  {
    after := OpenedStep(env, st, item, how);
    MembersOneMore(st.accepted, Accepted(item, how));
    NotContinuing(st, item, how);
    Extended(env, st, after, Accepted(item, how));
  }

  lemma NotContinuing(st: ReplayState, item: Observation, how: Admission)
    requires Judge(st, item) == Admit(how)
    ensures !how.Continuing?
  {
  }

  /** One step of the table by the shape of the extension alone. */
  lemma Extended(env: Env, st: ReplayState, after: ReplayState, a: Accepted)
    requires Tracks(st) && TableFits(env, WindowsOf(st), Members(st.accepted))
    requires Extends(st, after, a)
    requires Fits(env, after.current.value, [a], if st.accepted == [] then None else Some(st.accepted[|st.accepted| - 1]), None)
    ensures TableFits(env, WindowsOf(after), Members(st.accepted) + [[a]])
  {
    var ws, groups, next := WindowsOf(st), Members(st.accepted), after.current.value;
    if st.accepted == [] {
      FirstFits(env, a, next);
    } else {
      MembersEnd(st.accepted);
      AddWindow(env, ws, groups, a, st.accepted[|st.accepted| - 1], WindowsOf(after)[|ws| - 1], next);
    }
  }

  /** A step that continues the open window, as its shape. */
  lemma GrownStep(env: Env, st: ReplayState, item: Observation, delta: real) returns (after: ReplayState, w: ReplayWindow)
    requires Tracks(st) && Judge(st, item) == Grow(delta)
    ensures after == Step(env, st, item) && after.accepted == st.accepted + [Accepted(item, Continuing)]
    ensures var ws := WindowsOf(st);
            && ws != [] && WindowsOf(after) == ws[..|ws| - 1] + [w]
            && item.at < ws[|ws| - 1].end && MayContinue(ws[|ws| - 1], item, delta)
            && w == Continued(env.config, ws[|ws| - 1], item, delta)
  {
    after := Step(env, st, item);
    w := after.current.value;
    assert WindowsOf(st)[..|st.windows|] == st.windows;
  }

  lemma GrowFits(env: Env, st: ReplayState, item: Observation, delta: real) returns (after: ReplayState)
    requires Tracks(st) && item.weekly.Some?
    requires TableFits(env, WindowsOf(st), Members(st.accepted))
    requires Judge(st, item) == Grow(delta)
    ensures after == Step(env, st, item) && after.accepted == st.accepted + [Accepted(item, Continuing)]
    ensures TableFits(env, WindowsOf(after), Members(after.accepted))
  {
    var w;
    after, w := GrownStep(env, st, item, delta);
    MembersOneMore(st.accepted, Accepted(item, Continuing));
    GrowWindow(env, WindowsOf(st), Members(st.accepted), item, delta, w);
  }

  /**
    The windows of a replay summarise its accepted readings, group by group.
    Start, calibration, kind and boundary come from the first reading of the
    group, the latest values from the last, the server's percentage from the
    newest that has one; the points are the movement within the group and across
    the split before it, the milestone is the newest one of those points, and the
    end is the opening one, which all readings but the first precede, unless a
    split with a boundary follows.
  */
  lemma {:induction false} WindowsSummariseReadings(env: Env, items: seq<Observation>)
    requires Loaded(items)
    ensures TableFits(env, WindowsOf(Run(env, items)), Members(Run(env, items).accepted))
    ensures HaveWeekly(Run(env, items).accepted)
  {
    if items != [] {
      var prefix, item := items[..|items| - 1], items[|items| - 1];
      var st := Run(env, prefix);
      WindowsSummariseReadings(env, prefix);
      RunTracks(env, prefix);
      var verdict := Judge(st, item);
      if verdict.Admit? {
        var after := OpenFits(env, st, item, verdict.how);
        assert after == Run(env, items);
      } else if verdict.Grow? {
        var after := GrowFits(env, st, item, verdict.delta);
        assert after == Run(env, items);
      }
    }
  }

  /** The milestone law needs nothing of the data: no window of any run forgets its milestone, however it opened. */
  lemma {:induction false} EveryMilestoneIsNewest(env: Env, items: seq<Observation>, w: ReplayWindow)
    requires w in WindowsOf(Run(env, items))
    ensures IsNewest(env.config, EstimatePercent(w.points, w.calibration.value), -1, w.lastMilestone)
  {
    var prefix, item := items[..|items| - 1], items[|items| - 1];
    var st := Run(env, prefix);
    if exists was :: was in WindowsOf(st) && SameMeter(was, w) {
      var was :| was in WindowsOf(st) && SameMeter(was, w);
      EveryMilestoneIsNewest(env, prefix, was);
    } else {
      StepChangesOneMeter(env, st, item, w);
      NewestMilestoneIsNewest(env.config, EstimatePercent(w.points, w.calibration.value));
    }
  }

  predicate SameMeter(a: ReplayWindow, b: ReplayWindow) {
    a.points == b.points && a.calibration == b.calibration && a.lastMilestone == b.lastMilestone
  }

  /** A window whose meter differs from all before was just opened or continued. */
  lemma StepChangesOneMeter(env: Env, st: ReplayState, item: Observation, w: ReplayWindow)
    requires w in WindowsOf(Step(env, st, item))
    requires forall was :: was in WindowsOf(st) ==> !SameMeter(was, w)
    ensures w.lastMilestone == NewestMilestone(env.config, EstimatePercent(w.points, w.calibration.value))
  {
    forall was | was in st.windows ensures was in WindowsOf(st) && was != w {
      assert !SameMeter(was, w) || was != w;
    }
    assert st.current.Some? ==> st.current.value in WindowsOf(st);
  }

  // ----- What is noted -----

  /** Neither window of the reading moved on or back, and none that both show lacks its length or reset. */
  predicate NothingMoved(previous: Observation, item: Observation) {
    && !MovedOn(previous.fiveHour, item.fiveHour, FIVE_HOUR_MINUTES)
    && !MovedBack(previous.fiveHour, item.fiveHour, FIVE_HOUR_MINUTES)
    && !Unusable(previous.fiveHour, item.fiveHour, FIVE_HOUR_MINUTES)
    && !MovedOn(previous.weekly, item.weekly, WEEKLY_MINUTES)
    && !MovedBack(previous.weekly, item.weekly, WEEKLY_MINUTES)
    && !Unusable(previous.weekly, item.weekly, WEEKLY_MINUTES)
  }

  /**
    A reset event is noted for a reading exactly when something moved since the
    last accepted one, whether or not the reading is then used, and it carries
    the classification of the two; earlier events stay.
  */
  lemma {:induction false} EventsExactly(env: Env, items: seq<Observation>, item: Observation)
    ensures var st, after := Run(env, items), Run(env, items + [item]);
            after.events ==
            if st.accepted == [] || NothingMoved(st.accepted[|st.accepted| - 1].item, item) then st.events
            else st.events + [ResetEvent(item.id, Classify(st.accepted[|st.accepted| - 1].item, item))]
  {
    RunAppend(env, items, item);
    StepEvents(env, Run(env, items), item);
  }

  lemma StepEvents(env: Env, st: ReplayState, item: Observation)
    ensures Step(env, st, item).events ==
            if st.accepted == [] || NothingMoved(st.accepted[|st.accepted| - 1].item, item) then st.events
            else st.events + [ResetEvent(item.id, Classify(st.accepted[|st.accepted| - 1].item, item))]
  {
    assert Step(env, st, item).events == WithEvent(st.events, item, DecisionFor(Previous(st.accepted), item));
    if st.accepted != [] {
      MovedExactly(st.accepted[|st.accepted| - 1].item, item);
    }
  }

  lemma MovedExactly(previous: Observation, item: Observation)
    ensures Classify(previous, item).kind == NoReset <==> NothingMoved(previous, item)
  {
    KindsExactly(previous, item);
  }
}
