/**
  What every replay keeps: the loop variables agree with each other, no usage
  is lost or invented, and the windows are ordered exactly when the server
  splits are.
*/
module ReplayInvariants {
  import opened Options
  import opened UsageModel
  import opened ResetClassifier
  import opened WindowReplay
  import Accounting

  /** `load_replay_items` gives every item a weekly window. */
  ghost predicate Loaded(items: seq<Observation>) {
    forall i :: 0 <= i < |items| ==> items[i].weekly.Some?
  }

  ghost predicate InTime(items: seq<Observation>) {
    forall i, j :: 0 <= i < j < |items| ==> items[i].at <= items[j].at
  }

  ghost predicate LatestIs(w: ReplayWindow, item: Observation) {
    && item.weekly.Some?
    && w.latestAt == item.at
    && w.latestId == item.id
    && w.latestUsed == item.weekly.value.used
    && w.latestReset == item.weekly.value.resetsAt
  }

  /** The open window's latest reading is the last accepted observation. */
  ghost predicate Tracks(st: ReplayState) {
    && (st.current.Some? <==> st.accepted != [])
    && (st.windows != [] ==> st.current.Some?)
    && (st.current.Some? ==> LatestIs(st.current.value, st.accepted[|st.accepted| - 1].item))
  }

  lemma StepTracks(env: Env, st: ReplayState, item: Observation)
    requires Tracks(st) && item.weekly.Some?
    ensures Tracks(Step(env, st, item))
    ensures var after := Step(env, st, item).accepted;
            after == st.accepted || (after != [] && after[|after| - 1].item == item)
  {
  }

  lemma {:induction false} RunTracks(env: Env, items: seq<Observation>)
    requires Loaded(items)
    ensures Tracks(Run(env, items))
    ensures Previous(Run(env, items).accepted).Some? ==> Previous(Run(env, items).accepted).value in items
  {
    if items == [] {
    } else {
      RunTracks(env, items[..|items| - 1]);
      StepTracks(env, Run(env, items[..|items| - 1]), items[|items| - 1]);
    }
  }

  // ----- Bounds and points of every window -----

  ghost predicate Sane(w: ReplayWindow) {
    w.start <= w.end && 0.0 <= w.points
  }

  ghost predicate AllSane(ws: seq<ReplayWindow>) {
    forall i :: 0 <= i < |ws| ==> Sane(ws[i])
  }

  ghost predicate SanePreserved(preserved: map<Time, Pinned>) {
    forall start :: start in preserved ==> start <= preserved[start].end
  }

  lemma StepIsSane(env: Env, st: ReplayState, item: Observation)
    requires SanePreserved(env.preserved) && AllSane(WindowsOf(st))
    ensures AllSane(WindowsOf(Step(env, st, item)))
  {
    if st.current.Some? {
      assert WindowsOf(st)[|st.windows|] == st.current.value;
    }
    assert forall i :: 0 <= i < |st.windows| ==> WindowsOf(st)[i] == st.windows[i];
  }

  /**
    Every window of every replay starts no later than it ends and holds no
    negative usage, provided the table it inherits ends from has that property.
  */
  lemma {:induction false} RunIsSane(env: Env, items: seq<Observation>)
    requires SanePreserved(env.preserved)
    ensures AllSane(WindowsOf(Run(env, items)))
  {
    if items == [] {
    } else {
      RunIsSane(env, items[..|items| - 1]);
      StepIsSane(env, Run(env, items[..|items| - 1]), items[|items| - 1]);
    }
  }

  // ----- Conservation of usage -----

  ghost predicate Timestamped(items: seq<Observation>) {
    forall i :: 0 <= i < |items| ==> items[i].weekly.Some? && items[i].weekly.value.resetsAt.Some?
  }

  /** Usage confirmed by two consecutive readings: the rise within a weekly epoch, or the whole new reading. */
  function Growth(previous: Observation, item: Observation): real
    requires previous.weekly.Some? && item.weekly.Some?
  {
    if SameEpoch(previous.weekly.value.resetsAt, item.weekly.value.resetsAt)
    then MaxReal(item.weekly.value.used - previous.weekly.value.used, 0.0)
    else item.weekly.value.used
  }

  /** The growth between consecutive accepted observations, except across a local expiry. */
  function ConfirmedGrowth(accepted: seq<Accepted>): real
    requires forall i :: 0 <= i < |accepted| ==> accepted[i].item.weekly.Some?
  {
    var n := |accepted|;
    if n < 2 then 0.0
    else ConfirmedGrowth(accepted[..n - 1])
         + (if accepted[n - 1].how.Expired? then 0.0 else Growth(accepted[n - 2].item, accepted[n - 1].item))
  }

  function TotalPoints(ws: seq<ReplayWindow>): real {
    if ws == [] then 0.0 else TotalPoints(ws[..|ws| - 1]) + ws[|ws| - 1].points
  }

  lemma {:induction false} TotalPointsAppend(ws: seq<ReplayWindow>, w: ReplayWindow)
    ensures TotalPoints(ws + [w]) == TotalPoints(ws) + w.points
  {
    assert (ws + [w])[..|ws|] == ws;
  }

  /** No reading takes usage away, so the clamp at zero is idle in replay too. */
  lemma {:induction false} PointsStayPositive(env: Env, items: seq<Observation>)
    ensures forall w :: w in WindowsOf(Run(env, items)) ==> 0.0 <= w.points
  {
    if items == [] {
    } else {
      PointsStayPositive(env, items[..|items| - 1]);
      var before := Run(env, items[..|items| - 1]);
      assert before.current.Some? ==> before.current.value in WindowsOf(before);
      assert forall w :: w in before.windows ==> w in WindowsOf(before);
    }
  }

  lemma {:induction false} AcceptedFromItems(env: Env, items: seq<Observation>)
    ensures forall a :: a in Run(env, items).accepted ==> a.item in items
  {
    if items == [] {
    } else {
      AcceptedFromItems(env, items[..|items| - 1]);
    }
  }

  /**
    A continuing reading hides no usage: both readings carry reset times, or
    neither does and usage did not fall except to nothing, or only one does and
    usage fell or was nothing before.
  */
  predicate HidesNothing(was: RateWindow, now: RateWindow) {
    if was.resetsAt.Some? && now.resetsAt.Some? then true
    else if was.resetsAt.None? && now.resetsAt.None? then was.used <= now.used || now.used == 0.0
    else now.used < was.used || was.used == 0.0
  }

  /** What a continuing observation adds is its confirmed growth exactly when it hides nothing. */
  lemma GrowIsGrowthExactly(w: ReplayWindow, previous: Observation, item: Observation)
    requires LatestIs(w, previous) && item.weekly.Some?
    requires !WindowTransition(w, item).IgnoreRegression?
    ensures WindowTransition(w, item).delta == Growth(previous, item)
            <==> HidesNothing(previous.weekly.value, item.weekly.value)
    ensures WindowTransition(w, item).delta >= 0.0
  {
  }

  /** If the item continues a window, it hides nothing against the previously accepted reading. */
  ghost predicate StepHidesNothing(st: ReplayState, item: Observation) {
    Judge(st, item).Grow? && st.accepted != [] ==>
      && st.accepted[|st.accepted| - 1].item.weekly.Some? && item.weekly.Some?
      && HidesNothing(st.accepted[|st.accepted| - 1].item.weekly.value, item.weekly.value)
  }

  ghost predicate NothingHidden(env: Env, items: seq<Observation>) {
    forall k :: 0 <= k < |items| ==> StepHidesNothing(Run(env, items[..k]), items[k])
  }

  /** The books balance after every prefix of a run exactly when no continuing reading hides anything. */
  lemma {:induction false} ConservedThroughoutExactly(env: Env, items: seq<Observation>)
    requires Loaded(items)
    ensures (forall k :: 0 <= k <= |items| ==> Conserved(Run(env, items[..k]))) <==> NothingHidden(env, items)
  {
    if NothingHidden(env, items) {
      forall k | 0 <= k <= |items| ensures Conserved(Run(env, items[..k])) {
        HiddenNowhere(env, items, k);
      }
    }
    if forall k :: 0 <= k <= |items| ==> Conserved(Run(env, items[..k])) {
      forall k | 0 <= k < |items| ensures StepHidesNothing(Run(env, items[..k]), items[k]) {
        assert Conserved(Run(env, items[..k])) && Conserved(Run(env, items[..k + 1]));
        ConservedNext(env, items, k);
      }
    }
  }

  lemma {:induction false} HiddenNowhere(env: Env, items: seq<Observation>, k: nat)
    requires Loaded(items) && NothingHidden(env, items) && k <= |items|
    ensures Conserved(Run(env, items[..k]))
  {
    if k > 0 {
      HiddenNowhere(env, items, k - 1);
      assert StepHidesNothing(Run(env, items[..k - 1]), items[k - 1]);
      ConservedNext(env, items, k - 1);
    }
  }

  lemma {:induction false} ConservedNext(env: Env, items: seq<Observation>, k: nat)
    requires Loaded(items) && k < |items| && Conserved(Run(env, items[..k]))
    ensures Conserved(Run(env, items[..k + 1])) <==> StepHidesNothing(Run(env, items[..k]), items[k])
  {
    var st := Run(env, items[..k]);
    RunTracks(env, items[..k]);
    PointsStayPositive(env, items[..k]);
    assert st.current.Some? ==> st.current.value in WindowsOf(st);
    assert items[..k + 1][..k] == items[..k];
    UsageStep(env, st, items[k]);
  }

  /**
    Usage is conserved: the points of all windows together are the confirmed
    growth of the accepted observations, nothing more and nothing less.
  */
  lemma {:induction false} UsageIsConserved(env: Env, items: seq<Observation>)
    requires Timestamped(items)
    ensures Conserved(Run(env, items))
  {
    forall k | 0 <= k < |items| ensures StepHidesNothing(Run(env, items[..k]), items[k]) {
      RunTracks(env, items[..k]);
      AcceptedFromItems(env, items[..k]);
      var accepted := Run(env, items[..k]).accepted;
      if accepted != [] {
        assert accepted[|accepted| - 1] in accepted;
      }
    }
    HiddenNowhere(env, items, |items|);
    assert items[..|items|] == items;
  }

  lemma {:induction false} ConfirmedGrowthAppend(accepted: seq<Accepted>, a: Accepted)
    requires forall i :: 0 <= i < |accepted| ==> accepted[i].item.weekly.Some?
    requires a.item.weekly.Some?
    ensures ConfirmedGrowth(accepted + [a]) == ConfirmedGrowth(accepted)
              + (if accepted == [] || a.how.Expired? then 0.0 else Growth(accepted[|accepted| - 1].item, a.item))
  {
    assert (accepted + [a])[..|accepted|] == accepted;
  }

  /** A new window starts with the growth across a server boundary, and with nothing otherwise. */
  lemma OpeningPoints(env: Env, st: ReplayState, item: Observation, how: Admission)
    requires Tracks(st) && item.weekly.Some?
    requires st.accepted != [] ==> st.accepted[|st.accepted| - 1].item.weekly.Some?
    requires st.accepted == [] ==> !how.Split?
    requires how != Continuing
    requires how.Opening? ==> st.accepted == []
    ensures Open(env, st, item, how).current.value.points ==
            if st.accepted == [] || how.Expired? then 0.0 else Growth(st.accepted[|st.accepted| - 1].item, item)
  {
  }

  lemma OpenKeepsTotal(env: Env, st: ReplayState, item: Observation, how: Admission)
    ensures TotalPoints(WindowsOf(Open(env, st, item, how))) ==
            TotalPoints(WindowsOf(st)) + Open(env, st, item, how).current.value.points
  {
    var after := Open(env, st, item, how);
    TotalPointsAppend(after.windows, after.current.value);
    if st.current.Some? {
      TotalPointsAppend(st.windows, st.current.value);
      TotalPointsAppend(st.windows, after.windows[|st.windows|]);
    } else {
      assert after.windows == st.windows;
    }
  }

  lemma ContinueKeepsTotal(env: Env, st: ReplayState, item: Observation, delta: real)
    requires st.current.Some? && 0.0 <= st.current.value.points && 0.0 <= delta
    ensures var more := st.(current := Some(Continued(env.config, st.current.value, item, delta)));
            TotalPoints(WindowsOf(more)) == TotalPoints(WindowsOf(st)) + delta
  {
    TotalPointsAppend(st.windows, st.current.value);
    TotalPointsAppend(st.windows, Continued(env.config, st.current.value, item, delta));
  }

  /** The books balance: all usage in the windows is confirmed growth. */
  ghost predicate Conserved(st: ReplayState) {
    && (forall i :: 0 <= i < |st.accepted| ==> st.accepted[i].item.weekly.Some?)
    && TotalPoints(WindowsOf(st)) == ConfirmedGrowth(st.accepted)
  }

  /** Booking one more accepted observation with its growth keeps the books balanced. */
  lemma Booked(before: ReplayState, after: ReplayState, a: Accepted, gain: real)
    requires Conserved(before) && a.item.weekly.Some?
    requires after.accepted == before.accepted + [a]
    requires gain == if before.accepted == [] || a.how.Expired? then 0.0
                     else Growth(before.accepted[|before.accepted| - 1].item, a.item)
    requires TotalPoints(WindowsOf(after)) == TotalPoints(WindowsOf(before)) + gain
    ensures Conserved(after)
  {
    ConfirmedGrowthAppend(before.accepted, a);
  }

  lemma UsageAdmit(env: Env, st: ReplayState, item: Observation, how: Admission)
    requires Tracks(st) && Conserved(st) && item.weekly.Some?
    requires Judge(st, item) == Admit(how)
    ensures Conserved(Open(env, st, item, how))
  {
    var after := Open(env, st, item, how);
    OpeningPoints(env, st, item, how);
    OpenKeepsTotal(env, st, item, how);
    Booked(st, after, Accepted(item, how), after.current.value.points);
  }

  lemma UsageGrow(env: Env, st: ReplayState, item: Observation, delta: real)
    requires Tracks(st) && Conserved(st) && st.accepted != [] && item.weekly.Some?
    requires 0.0 <= st.current.value.points
    requires Judge(st, item) == Grow(delta)
    ensures Conserved(Step(env, st, item)) <==> StepHidesNothing(st, item)
  {
    var last := st.accepted[|st.accepted| - 1].item;
    GrowIsGrowthExactly(st.current.value, last, item);
    ContinueKeepsTotal(env, st, item, delta);
    ConfirmedGrowthAppend(st.accepted, Accepted(item, Continuing));
  }

  lemma UsageStep(env: Env, st: ReplayState, item: Observation)
    requires Tracks(st) && Conserved(st) && item.weekly.Some?
    requires st.current.Some? ==> 0.0 <= st.current.value.points
    ensures Conserved(Step(env, st, item)) <==> StepHidesNothing(st, item)
  {
    var verdict := Judge(st, item);
    if verdict.Admit? {
      UsageAdmit(env, st, item, verdict.how);
    } else if verdict.Grow? {
      UsageGrow(env, st, item, verdict.delta);
    }
  }

  /**
    Without reset times the law fails: a fall from 50 to 10 is booked as 10 points
    of fresh usage although no rise between the two readings is confirmed.
  */
  lemma {:induction false} UntimedFallBreaksConservation(env: Env, source: int)
    requires env.preserved == map[]
    ensures var items := [
              Observation(ObservationId(source, 0), 0, None, Some(RateWindow(50.0, WEEKLY_MINUTES, None))),
              Observation(ObservationId(source, 1), 0, None, Some(RateWindow(10.0, WEEKLY_MINUTES, None)))];
            && Loaded(items)
            && (forall i :: 0 <= i < |Run(env, items).accepted| ==> Run(env, items).accepted[i].item.weekly.Some?)
            && TotalPoints(WindowsOf(Run(env, items))) == 10.0
            && ConfirmedGrowth(Run(env, items).accepted) == 0.0
  {
    var a := Observation(ObservationId(source, 0), 0, None, Some(RateWindow(50.0, WEEKLY_MINUTES, None)));
    var b := Observation(ObservationId(source, 1), 0, None, Some(RateWindow(10.0, WEEKLY_MINUTES, None)));
    RunAppend(env, [], a);
    RunAppend(env, [a], b);
    assert [] + [a] == [a] && [a] + [b] == [a, b];
    var one := Open(env, START, a, Opening);
    assert one == Run(env, [a]);
    var two := Run(env, [a, b]);
    assert Judge(one, b) == Grow(10.0);
    assert two.accepted == [Accepted(a, Opening), Accepted(b, Continuing)];
    TotalPointsAppend([], two.current.value);
    ConfirmedGrowthAppend([Accepted(a, Opening)], Accepted(b, Continuing));
  }

  // ----- Order of the windows -----

  /** Each window ends no later than the next one starts. */
  ghost predicate InOrder(ws: seq<ReplayWindow>) {
    forall i :: 0 < i < |ws| ==> ws[i - 1].end <= ws[i].start
  }

  /** Ordered windows are pairwise disjoint intervals. */
  lemma {:induction false} InOrderDisjoint(ws: seq<ReplayWindow>, i: nat, j: nat)
    requires InOrder(ws) && AllSane(ws) && i < j < |ws|
    ensures ws[i].end <= ws[j].start
    decreases j
  {
    if j == i + 1 {
    } else {
      InOrderDisjoint(ws, i, j - 1);
    }
  }

  function SplitStart(item: Observation): Time {
    match ServerEpochBounds(item)
    case Some(bounds) => bounds.0
    case None => item.at
  }

  /**
    A caller can check this before a split: the new window starts inside the old
    one, and not before the previous observation unless the old window is over.
  */
  predicate SplitFits(was: ReplayWindow, previous: Observation, item: Observation) {
    var start := SplitStart(item);
    if Classify(previous, item).boundaryAt.Some?
    then was.start <= start && (previous.at <= start || was.end <= start)
    else was.end <= start
  }

  /** A split keeps the two windows apart exactly when it fits. */
  lemma SplitApartExactly(was: ReplayWindow, previous: Observation, item: Observation)
    requires was.start <= was.end && previous.at <= item.at && ServerSplit(previous, item)
    ensures Closed(was, Classify(previous, item).boundaryAt).end <= SplitStart(item)
            <==> SplitFits(was, previous, item)
  {
    SplitBoundary(previous, item);
  }

  ghost predicate StepFits(env: Env, st: ReplayState, item: Observation) {
    Judge(st, item) == Admit(Split) ==>
      && st.current.Some?
      && SplitFits(st.current.value, st.accepted[|st.accepted| - 1].item, item)
  }

  ghost predicate AllSplitsFit(env: Env, items: seq<Observation>) {
    forall k :: 0 <= k < |items| ==> StepFits(env, Run(env, items[..k]), items[k])
  }

  lemma OpenStart(env: Env, st: ReplayState, item: Observation, how: Admission)
    requires how != Continuing && (how.Split? ==> st.accepted != [])
    ensures Open(env, st, item, how).current.value.start
            == if how.Expired? then item.at else SplitStart(item)
  {
  }

  lemma InOrderAppend(ws: seq<ReplayWindow>, was: ReplayWindow, closed: ReplayWindow, next: ReplayWindow)
    requires closed.start == was.start
    ensures InOrder(ws + [closed, next]) <==> InOrder(ws + [was]) && closed.end <= next.start
  {
    var n := |ws|;
    var a, b := ws + [was], ws + [closed, next];
    assert forall i :: 0 <= i < n ==> a[i] == b[i] == ws[i];
    assert b[n + 1 - 1] == closed && b[n + 1] == next;
    if InOrder(b) {
      assert b[n + 1 - 1].end <= b[n + 1].start;
      forall i | 0 < i < |a| ensures a[i - 1].end <= a[i].start {
        assert b[i - 1].end <= b[i].start;
      }
    }
    if InOrder(a) && closed.end <= next.start {
      forall i | 0 < i < |b| ensures b[i - 1].end <= b[i].start {
        if i <= n {
          assert a[i - 1].end <= a[i].start;
        }
      }
    }
  }

  lemma StepOrder(env: Env, st: ReplayState, item: Observation)
    requires Tracks(st) && (st.current.Some? ==> Sane(st.current.value))
    requires st.accepted != [] ==> st.accepted[|st.accepted| - 1].item.at <= item.at
    ensures InOrder(WindowsOf(Step(env, st, item))) <==>
            InOrder(WindowsOf(st)) && StepFits(env, st, item)
  {
    var verdict := Judge(st, item);
    if verdict.Admit? && st.current.Some? {
      var after := Open(env, st, item, verdict.how);
      OpenStart(env, st, item, verdict.how);
      var was, closed := st.current.value, after.windows[|st.windows|];
      assert WindowsOf(after) == st.windows + [closed, after.current.value];
      InOrderAppend(st.windows, was, closed, after.current.value);
      if verdict.how.Split? {
        SplitApartExactly(was, st.accepted[|st.accepted| - 1].item, item);
      }
    } else if verdict.Grow? {
      assert forall i :: 0 <= i < |st.windows| ==> WindowsOf(st)[i] == WindowsOf(Step(env, st, item))[i];
      assert WindowsOf(st)[|st.windows|].start == WindowsOf(Step(env, st, item))[|st.windows|].start;
      InOrderSameStarts(WindowsOf(st), WindowsOf(Step(env, st, item)));
    }
  }

  lemma InOrderSameStarts(a: seq<ReplayWindow>, b: seq<ReplayWindow>)
    requires |a| == |b|
    requires forall i :: 0 <= i < |a| ==> a[i].start == b[i].start && a[i].end == b[i].end
    ensures InOrder(a) <==> InOrder(b)
  {
  }

  lemma {:induction false} OrderNext(env: Env, items: seq<Observation>)
    requires SanePreserved(env.preserved) && Loaded(items) && InTime(items) && items != []
    ensures var prefix := items[..|items| - 1];
            InOrder(WindowsOf(Run(env, items))) <==>
            InOrder(WindowsOf(Run(env, prefix))) && StepFits(env, Run(env, prefix), items[|items| - 1])
  {
    var prefix := items[..|items| - 1];
    var st := Run(env, prefix);
    RunTracks(env, prefix);
    RunIsSane(env, prefix);
    if st.current.Some? {
      assert WindowsOf(st)[|st.windows|] == st.current.value;
    }
    StepOrder(env, st, items[|items| - 1]);
  }

  /**
    The windows of a replay are in order exactly when every server split of the
    run fits; in order, they are pairwise disjoint.
  */
  lemma {:induction false} OrderedExactlyWhenSplitsFit(env: Env, items: seq<Observation>)
    requires SanePreserved(env.preserved) && Loaded(items) && InTime(items)
    ensures InOrder(WindowsOf(Run(env, items))) <==> AllSplitsFit(env, items)
  {
    if items != [] {
      var prefix, item := items[..|items| - 1], items[|items| - 1];
      OrderedExactlyWhenSplitsFit(env, prefix);
      OrderNext(env, items);
      AllSplitsFitAppend(env, prefix, item);
      assert prefix + [item] == items;
    }
  }

  lemma {:induction false} AllSplitsFitAppend(env: Env, items: seq<Observation>, item: Observation)
    ensures AllSplitsFit(env, items + [item]) <==> AllSplitsFit(env, items) && StepFits(env, Run(env, items), item)
  {
    var more := items + [item];
    assert more[..|items|] == items && more[|items|] == item;
    assert forall k :: 0 <= k < |items| ==> more[..k] == items[..k] && more[k] == items[k];
    if AllSplitsFit(env, more) {
      assert StepFits(env, Run(env, more[..|items|]), more[|items|]);
      forall k | 0 <= k < |items| ensures StepFits(env, Run(env, items[..k]), items[k]) {
        assert StepFits(env, Run(env, more[..k]), more[k]);
      }
    }
    if AllSplitsFit(env, items) && StepFits(env, Run(env, items), item) {
      forall k | 0 <= k < |more| ensures StepFits(env, Run(env, more[..k]), more[k]) {
        if k < |items| {
          assert StepFits(env, Run(env, items[..k]), items[k]);
        }
      }
    }
  }

  ghost predicate NoFiveHour(items: seq<Observation>) {
    forall i :: 0 <= i < |items| ==> items[i].fiveHour.None?
  }

  lemma WeeklyItemNeverSplits(st: ReplayState, item: Observation)
    requires item.fiveHour.None?
    ensures Judge(st, item) != Admit(Split)
  {
  }

  /** Without five-hour data there are no splits, so the windows are always disjoint. */
  lemma {:induction false} WeeklyOnlyInOrder(env: Env, items: seq<Observation>)
    requires SanePreserved(env.preserved) && Loaded(items) && InTime(items) && NoFiveHour(items)
    ensures InOrder(WindowsOf(Run(env, items)))
  {
    assert AllSplitsFit(env, items) by {
      forall k | 0 <= k < |items| ensures StepFits(env, Run(env, items[..k]), items[k]) {
        WeeklyItemNeverSplits(Run(env, items[..k]), items[k]);
      }
    }
    OrderedExactlyWhenSplitsFit(env, items);
  }
}
