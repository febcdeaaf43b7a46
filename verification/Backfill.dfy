/**
  The backfill of five-hour epochs in closed form: which items are filled, from
  which later observation, and that a second pass finds nothing left to do.
*/
module Backfill {
  import opened Options
  import opened UsageModel
  import opened ResetClassifier
  import opened WindowReplay

  /** The epoch of a window with a reset, of the window's own length, widened by 60 s on both sides. */
  predicate Spans(known: RateWindow, at: Time) {
    && known.resetsAt.Some?
    && known.resetsAt.value - known.minutes * MINUTE - 60 * SECOND <= at <= known.resetsAt.value + 60 * SECOND
  }

  /**
    Item `j` is the nearest item at or after `i` with a five-hour window, and its
    widened epoch spans every item from `i` up to it.
  */
  ghost predicate Reaches(items: seq<Observation>, i: int, j: int) {
    && 0 <= i <= j < |items|
    && items[j].fiveHour.Some?
    && forall m :: i <= m < j ==> items[m].fiveHour.None? && Spans(items[j].fiveHour.value, items[m].at)
  }

  lemma {:induction false} LeftIsHead(items: seq<Observation>)
    requires items != []
    ensures BackfillAll(items).1 == BackfillAll(items).0[0].fiveHour
  {
  }

  lemma ReachesShift(items: seq<Observation>, i: int, j: int)
    requires items != [] && 1 <= i
    ensures Reaches(items[1..], i - 1, j - 1) <==> Reaches(items, i, j)
  {
    var rest := items[1..];
    assert forall m :: 0 <= m < |rest| ==> rest[m] == items[m + 1];
    if Reaches(rest, i - 1, j - 1) {
      forall m | i <= m < j ensures items[m].fiveHour.None? && Spans(items[j].fiveHour.value, items[m].at) {
        assert rest[m - 1].fiveHour.None?;
      }
    }
  }

  /**
    An item ends up with a five-hour window exactly when some later known epoch
    reaches it (or it had one); then it carries that epoch and nothing else
    changes.  All other items are untouched.
  */
  lemma {:induction false} BackfillClosedForm(items: seq<Observation>, i: nat)
    requires i < |items|
    ensures var r := Backfilled(items);
            && (r[i].fiveHour.Some? <==> exists j :: Reaches(items, i, j))
            && (forall j :: Reaches(items, i, j) ==> r[i] == items[i].(fiveHour := items[j].fiveHour))
            && (r[i].fiveHour.None? ==> r[i] == items[i])
            && (items[i].fiveHour.Some? ==> r[i] == items[i])
  {
    var rest := items[1..];
    var r := Backfilled(items);
    if i > 0 {
      BackfillClosedForm(rest, i - 1);
      assert r[i] == Backfilled(rest)[i - 1];
      forall j ensures Reaches(items, i, j) <==> Reaches(rest, i - 1, j - 1) {
        ReachesShift(items, i, j);
      }
      if r[i].fiveHour.Some? {
        var j :| Reaches(rest, i - 1, j);
        assert Reaches(items, i, j + 1);
      }
    } else if items[0].fiveHour.Some? {
      assert Reaches(items, 0, 0);
    } else if rest == [] {
    } else {
      BackfillClosedForm(rest, 0);
      LeftIsHead(rest);
      forall j | Reaches(items, 0, j) ensures Reaches(rest, 0, j - 1) && Spans(items[j].fiveHour.value, items[0].at) {
        ReachesShift(items, 1, j);
      }
      forall j | Reaches(rest, 0, j) ensures Reaches(items, 1, j + 1) {
        ReachesShift(items, 1, j + 1);
      }
      if r[0].fiveHour.Some? {
        var j :| Reaches(rest, 0, j);
        assert Reaches(items, 1, j + 1);
        assert Reaches(items, 0, j + 1);
      }
    }
  }

  /** Filled items form a contiguous run that ends at the observation they were filled from. */
  lemma FilledRunIsContiguous(items: seq<Observation>, i: nat, j: nat, m: nat)
    requires Reaches(items, i, j) && i <= m <= j
    ensures Backfilled(items)[m] == items[m].(fiveHour := items[j].fiveHour)
  {
    assert Reaches(items, m, j);
    BackfillClosedForm(items, m);
  }

  /** On time-ordered items only the two ends of the run need to be covered. */
  lemma ReachesInTime(items: seq<Observation>, i: nat, j: nat)
    requires forall a, b :: 0 <= a < b < |items| ==> items[a].at <= items[b].at
    requires i < j < |items| && items[j].fiveHour.Some?
    ensures Reaches(items, i, j) <==>
            && (forall m :: i <= m < j ==> items[m].fiveHour.None?)
            && Spans(items[j].fiveHour.value, items[i].at)
            && Spans(items[j].fiveHour.value, items[j - 1].at)
  {
  }

  lemma {:induction false} SecondPass(items: seq<Observation>)
    ensures BackfillAll(Backfilled(items)) == BackfillAll(items)
  {
    if items == [] {
    } else {
      SecondPass(items[1..]);
      assert Backfilled(items)[1..] == Backfilled(items[1..]);
      if items[1..] != [] {
        LeftIsHead(items[1..]);
      }
    }
  }

  /** A second pass changes nothing. */
  lemma BackfillIdempotent(items: seq<Observation>)
    ensures Backfilled(Backfilled(items)) == Backfilled(items)
  {
    SecondPass(items);
  }

  /** Backfill touches nothing but missing five-hour windows, so order and weekly data stay. */
  lemma {:induction false} BackfillKeepsTheRest(items: seq<Observation>, i: nat)
    requires i < |items|
    ensures Backfilled(items)[i].(fiveHour := None) == items[i].(fiveHour := None)
  {
    BackfillClosedForm(items, i);
    if Backfilled(items)[i].fiveHour.Some? {
      var j :| Reaches(items, i, j);
    }
  }

  /** With no five-hour data at all there is nothing to fill in. */
  lemma {:induction false} BackfillWeeklyOnly(items: seq<Observation>)
    requires forall i :: 0 <= i < |items| ==> items[i].fiveHour.None?
    ensures BackfillAll(items) == (items, None)
  {
    if items == [] {
    } else {
      BackfillWeeklyOnly(items[1..]);
      assert [items[0]] + items[1..] == items;
    }
  }
}
