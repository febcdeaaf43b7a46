/**
  The first half of `build_report` in `src/calibration.rs`: reset-time jitter is
  normalised and observations of one quota interval are grouped.
*/
module CalibrationGroups {
  import opened Options
  import opened UsageModel
  import opened ResetClassifier
  import opened Sorting

  /** `identity` stands for plan, model, tier, schema fingerprint and compatibility generation. */
  datatype CalibrationObservation = CalibrationObservation(
    sourceKey: string,
    at: Time,
    fiveHour: Option<RateWindow>,
    weekly: Option<RateWindow>,
    identity: string)

  predicate NoLaterThan(a: CalibrationObservation, b: CalibrationObservation) {
    a.at <= b.at
  }

  // ----- Jitter normalisation -----

  /** The reset a window is left with, which is also the canonical reset from there on. */
  function Canonical(canonical: Option<Time>, reset: Option<Time>): Option<Time> {
    if SameEpoch(canonical, reset) then canonical else reset
  }

  function NormalizeWindow(w: Option<RateWindow>, canonical: Option<Time>): Option<RateWindow> {
    match w
    case None => None
    case Some(window) => Some(window.(resetsAt := Canonical(canonical, window.resetsAt)))
  }

  function CanonicalAfter(w: Option<RateWindow>, canonical: Option<Time>): Option<Time> {
    match w
    case None => canonical
    case Some(window) => Canonical(canonical, window.resetsAt)
  }

  function NormalizeOne(o: CalibrationObservation, five: Option<Time>, weekly: Option<Time>): CalibrationObservation {
    o.(fiveHour := NormalizeWindow(o.fiveHour, five), weekly := NormalizeWindow(o.weekly, weekly))
  }

  /** The canonical five-hour and weekly resets after a run of observations. */
  function Canonicals(items: seq<CalibrationObservation>): (Option<Time>, Option<Time>) {
    if items == [] then (None, None)
    else
      var (five, weekly) := Canonicals(items[..|items| - 1]);
      (CanonicalAfter(items[|items| - 1].fiveHour, five), CanonicalAfter(items[|items| - 1].weekly, weekly))
  }

  function NormalizeAfter(items: seq<CalibrationObservation>, o: CalibrationObservation): CalibrationObservation {
    NormalizeOne(o, Canonicals(items).0, Canonicals(items).1)
  }

  function Normalized(items: seq<CalibrationObservation>): (r: seq<CalibrationObservation>)
    ensures |r| == |items|
  {
    if items == [] then []
    else
      var init := items[..|items| - 1];
      Normalized(init) + [NormalizeAfter(init, items[|items| - 1])]
  }

  lemma {:induction false} NormalizedAppend(items: seq<CalibrationObservation>, o: CalibrationObservation)
    ensures Normalized(items + [o]) == Normalized(items) + [NormalizeAfter(items, o)]
    ensures Canonicals(items + [o]) ==
            (CanonicalAfter(o.fiveHour, Canonicals(items).0), CanonicalAfter(o.weekly, Canonicals(items).1))
  {
    assert (items + [o])[..|items|] == items;
  }

  lemma {:induction false} NormalizedAt(items: seq<CalibrationObservation>, k: nat)
    requires k < |items|
    ensures Normalized(items)[k] == NormalizeAfter(items[..k], items[k])
  {
    var init := items[..|items| - 1];
    if k < |init| {
      NormalizedAt(init, k);
      assert init[..k] == items[..k];
    }
  }

  lemma NormalizedPrefix(items: seq<CalibrationObservation>, i: nat)
    requires i < |items|
    ensures Normalized(items[..i + 1]) == Normalized(items[..i]) + [NormalizeAfter(items[..i], items[i])]
    ensures Canonicals(items[..i + 1])
            == (CanonicalAfter(items[i].fiveHour, Canonicals(items[..i]).0),
                CanonicalAfter(items[i].weekly, Canonicals(items[..i]).1))
  {
    assert items[..i + 1] == items[..i] + [items[i]];
    NormalizedAppend(items[..i], items[i]);
  }

  method NormalizeObservation(o: CalibrationObservation, five: Option<Time>, weekly: Option<Time>)
    returns (after: CalibrationObservation, canonicalFive: Option<Time>, canonicalWeekly: Option<Time>)
    ensures after == NormalizeOne(o, five, weekly)
    ensures canonicalFive == CanonicalAfter(o.fiveHour, five) && canonicalWeekly == CanonicalAfter(o.weekly, weekly)
  {
    after, canonicalFive, canonicalWeekly := o, five, weekly;
    if o.fiveHour.Some? {
      var window := o.fiveHour.value;
      if SameEpoch(canonicalFive, window.resetsAt) {
        after := after.(fiveHour := Some(window.(resetsAt := canonicalFive)));
      } else {
        canonicalFive := window.resetsAt;
      }
    }
    if o.weekly.Some? {
      var window := o.weekly.value;
      if SameEpoch(canonicalWeekly, window.resetsAt) {
        after := after.(weekly := Some(window.(resetsAt := canonicalWeekly)));
      } else {
        canonicalWeekly := window.resetsAt;
      }
    }
  }

  method NormalizeResetJitter(observations: array<CalibrationObservation>)
    modifies observations
    ensures observations[..] == Normalized(old(observations[..]))
  {
    var canonicalFive: Option<Time>, canonicalWeekly: Option<Time> := None, None;
    ghost var was := observations[..];
    for i := 0 to observations.Length
      invariant observations[..i] == Normalized(was[..i])
      invariant observations[i..] == was[i..]
      invariant (canonicalFive, canonicalWeekly) == Canonicals(was[..i])
    {
      var o := observations[i];
      assert o == was[i] by {
        assert observations[i..][0] == was[i..][0];
      }
      NormalizedPrefix(was, i);
      var after;
      after, canonicalFive, canonicalWeekly := NormalizeObservation(o, canonicalFive, canonicalWeekly);
      observations[i] := after;
      assert observations[..i + 1] == observations[..i] + [after];
      assert observations[i + 1..] == was[i..][1..];
    }
    assert was[..observations.Length] == was && observations[..observations.Length] == observations[..];
  }

  /** A reset is moved by at most the tolerance, and neither invented nor lost. */
  ghost predicate MovedWithinJitter(before: Option<Time>, after: Option<Time>) {
    && (before.Some? <==> after.Some?)
    && (before.Some? ==> Abs(after.value - before.value) <= JITTER)
  }

  lemma OneMovesLittle(o: CalibrationObservation, five: Option<Time>, weekly: Option<Time>)
    ensures var r := NormalizeOne(o, five, weekly);
            && MovedWithinJitter(ResetOf(o.fiveHour), ResetOf(r.fiveHour))
            && MovedWithinJitter(ResetOf(o.weekly), ResetOf(r.weekly))
  {
  }

  lemma {:induction false} NormalizationMovesLittle(items: seq<CalibrationObservation>, k: nat)
    requires k < |items|
    ensures MovedWithinJitter(ResetOf(items[k].fiveHour), ResetOf(Normalized(items)[k].fiveHour))
    ensures MovedWithinJitter(ResetOf(items[k].weekly), ResetOf(Normalized(items)[k].weekly))
    ensures Normalized(items)[k].at == items[k].at && Normalized(items)[k].identity == items[k].identity
  {
    NormalizedAt(items, k);
    OneMovesLittle(items[k], Canonicals(items[..k]).0, Canonicals(items[..k]).1);
  }

  /** The window of either kind. */
  function Window(o: CalibrationObservation, five: bool): Option<RateWindow> {
    if five then o.fiveHour else o.weekly
  }

  function CanonicalOf(items: seq<CalibrationObservation>, five: bool): Option<Time> {
    if five then Canonicals(items).0 else Canonicals(items).1
  }

  lemma {:induction false} CanonicalHolds(items: seq<CalibrationObservation>, five: bool, i: nat, k: nat)
    requires i < k <= |items|
    requires Window(items[i], five).Some?
    requires forall m :: i < m < k ==> Window(items[m], five).None?
    ensures CanonicalOf(items[..k], five) == ResetOf(Window(Normalized(items)[i], five))
    decreases k
  {
    assert items[..k] == items[..k - 1] + [items[k - 1]];
    NormalizedAppend(items[..k - 1], items[k - 1]);
    if k == i + 1 {
      NormalizedAt(items, i);
    } else {
      CanonicalHolds(items, five, i, k - 1);
    }
  }

  /** Two consecutive readings of one window end up with one reset time or in different epochs. */
  lemma {:induction false} ConsecutiveEqualOrApart(items: seq<CalibrationObservation>, five: bool, i: nat, j: nat)
    requires i < j < |items|
    requires Window(items[i], five).Some? && Window(items[j], five).Some?
    requires forall m :: i < m < j ==> Window(items[m], five).None?
    ensures var a := ResetOf(Window(Normalized(items)[i], five));
            var b := ResetOf(Window(Normalized(items)[j], five));
            a == b || !SameEpoch(a, b)
  {
    CanonicalHolds(items, five, i, j);
    NormalizedAt(items, j);
  }

  lemma NormalizeTwice(o: CalibrationObservation, five: Option<Time>, weekly: Option<Time>)
    ensures var r := NormalizeOne(o, five, weekly);
            && NormalizeOne(r, five, weekly) == r
            && CanonicalAfter(r.fiveHour, five) == CanonicalAfter(o.fiveHour, five)
            && CanonicalAfter(r.weekly, weekly) == CanonicalAfter(o.weekly, weekly)
  {
  }

  /** A second pass is the identity. */
  lemma {:induction false} NormalizationIdempotent(items: seq<CalibrationObservation>)
    ensures Normalized(Normalized(items)) == Normalized(items)
    ensures Canonicals(Normalized(items)) == Canonicals(items)
  {
    if items != [] {
      var init, o := items[..|items| - 1], items[|items| - 1];
      NormalizationIdempotent(init);
      NormalizeTwice(o, Canonicals(init).0, Canonicals(init).1);
      NormalizedAppend(Normalized(init), NormalizeAfter(init, o));
    }
  }

  // ----- Grouping -----

  type GroupKey = (Time, Time)

  /** The quota interval of a timestamped paired observation. */
  function KeyOf(o: CalibrationObservation): Option<GroupKey> {
    match (ResetOf(o.fiveHour), ResetOf(o.weekly))
    case (Some(five), Some(weekly)) => Some((five, weekly))
    case _ => None
  }

  function WithKey(items: seq<CalibrationObservation>, key: GroupKey): seq<CalibrationObservation> {
    if items == [] then []
    else
      WithKey(items[..|items| - 1], key)
      + (if KeyOf(items[|items| - 1]) == Some(key) then [items[|items| - 1]] else [])
  }

  function Ungrouped(items: seq<CalibrationObservation>): nat {
    if items == [] then 0
    else Ungrouped(items[..|items| - 1]) + (if KeyOf(items[|items| - 1]).None? then 1 else 0)
  }

  function Retained(items: seq<CalibrationObservation>, identity: string): seq<CalibrationObservation> {
    if items == [] then []
    else
      Retained(items[..|items| - 1], identity)
      + (if items[|items| - 1].identity == identity then [items[|items| - 1]] else [])
  }

  datatype Entry = Entry(key: GroupKey, members: seq<CalibrationObservation>)

  predicate KeyLess(a: GroupKey, b: GroupKey) {
    a.0 < b.0 || (a.0 == b.0 && a.1 < b.1)
  }

  /** Appends to the group of a key in an ordered map, creating the group if needed. */
  function Put(groups: seq<Entry>, key: GroupKey, o: CalibrationObservation): seq<Entry> {
    if groups == [] || KeyLess(key, groups[0].key) then [Entry(key, [o])] + groups
    else if key == groups[0].key then [Entry(key, groups[0].members + [o])] + groups[1..]
    else [groups[0]] + Put(groups[1..], key, o)
  }

  predicate Ascending(groups: seq<Entry>) {
    |groups| < 2 || (KeyLess(groups[0].key, groups[1].key) && Ascending(groups[1..]))
  }

  function Lookup(groups: seq<Entry>, key: GroupKey): seq<CalibrationObservation> {
    if groups == [] then []
    else if groups[0].key == key then groups[0].members
    else Lookup(groups[1..], key)
  }

  function AllMembers(groups: seq<Entry>): nat {
    if groups == [] then 0 else |groups[0].members| + AllMembers(groups[1..])
  }

  function GroupOne(groups: seq<Entry>, o: CalibrationObservation): seq<Entry> {
    match KeyOf(o)
    case None => groups
    case Some(key) => Put(groups, key, o)
  }

  function Grouped(items: seq<CalibrationObservation>): seq<Entry> {
    if items == [] then []
    else GroupOne(Grouped(items[..|items| - 1]), items[|items| - 1])
  }

  method GroupObservations(items: seq<CalibrationObservation>) returns (groups: seq<Entry>, excluded: nat)
    ensures groups == Grouped(items) && excluded == Ungrouped(items)
  {
    groups, excluded := [], 0;
    for i := 0 to |items|
      invariant groups == Grouped(items[..i]) && excluded == Ungrouped(items[..i])
    {
      assert items[..i + 1][..i] == items[..i];
      match KeyOf(items[i]) {
        case Some(key) => groups := Put(groups, key, items[i]);
        case None => excluded := excluded + 1;
      }
    }
    assert items[..|items|] == items;
  }

  lemma {:induction false} LookupBelow(groups: seq<Entry>, key: GroupKey)
    requires Ascending(groups) && (groups == [] || KeyLess(key, groups[0].key))
    ensures Lookup(groups, key) == []
  {
    if groups != [] {
      LookupBelow(groups[1..], key);
    }
  }

  lemma {:induction false} PutLookup(groups: seq<Entry>, key: GroupKey, o: CalibrationObservation, k: GroupKey)
    requires Ascending(groups)
    ensures Ascending(Put(groups, key, o))
    ensures Lookup(Put(groups, key, o), k) == Lookup(groups, k) + (if k == key then [o] else [])
    ensures AllMembers(Put(groups, key, o)) == AllMembers(groups) + 1
  {
    var r := Put(groups, key, o);
    if groups == [] || KeyLess(key, groups[0].key) {
      LookupBelow(groups, key);
      assert r[1..] == groups;
    } else if key == groups[0].key {
      assert r[1..] == groups[1..];
    } else {
      PutLookup(groups[1..], key, o, k);
      assert r[1..] == Put(groups[1..], key, o);
    }
  }

  /**
    Every observation with both reset times is in the group of its own key, in
    order and as often as it occurs, and in no other group; the others are
    counted as excluded, so nothing is lost.
  */
  lemma {:induction false} GroupedExactly(items: seq<CalibrationObservation>, key: GroupKey)
    ensures Ascending(Grouped(items))
    ensures Lookup(Grouped(items), key) == WithKey(items, key)
    ensures AllMembers(Grouped(items)) + Ungrouped(items) == |items|
  {
    if items != [] {
      var init, o := items[..|items| - 1], items[|items| - 1];
      GroupedExactly(init, key);
      if KeyOf(o).Some? {
        PutLookup(Grouped(init), KeyOf(o).value, o, key);
      }
    }
  }

  lemma {:induction false} FirstKeyIsLeast(groups: seq<Entry>, i: nat)
    requires Ascending(groups) && 0 < i < |groups|
    ensures KeyLess(groups[0].key, groups[i].key)
  {
    if i > 1 {
      FirstKeyIsLeast(groups[1..], i - 1);
    }
  }

  /** No key occurs twice, so a group is what its key looks up. */
  lemma {:induction false} EntryIsItsGroup(groups: seq<Entry>, i: nat)
    requires Ascending(groups) && i < |groups|
    ensures Lookup(groups, groups[i].key) == groups[i].members
  {
    if i > 0 {
      FirstKeyIsLeast(groups, i);
      EntryIsItsGroup(groups[1..], i - 1);
    }
  }

  lemma {:induction false} LookupIsEntry(groups: seq<Entry>, key: GroupKey) returns (i: nat)
    requires Lookup(groups, key) != []
    ensures i < |groups| && groups[i].key == key && groups[i].members == Lookup(groups, key)
  {
    i := 0;
    if groups[0].key != key {
      i := LookupIsEntry(groups[1..], key);
      i := i + 1;
    }
  }

  lemma {:induction false} KeysAscend(groups: seq<Entry>, i: nat, j: nat)
    requires Ascending(groups) && i < j < |groups|
    ensures KeyLess(groups[i].key, groups[j].key)
  {
    if i == 0 {
      FirstKeyIsLeast(groups, j);
    } else {
      KeysAscend(groups[1..], i - 1, j - 1);
    }
  }

  lemma {:induction false} WithKeyExactly(items: seq<CalibrationObservation>, key: GroupKey, o: CalibrationObservation)
    ensures o in WithKey(items, key) <==> o in items && KeyOf(o) == Some(key)
  {
    if items != [] {
      WithKeyExactly(items[..|items| - 1], key, o);
      assert items == items[..|items| - 1] + [items[|items| - 1]];
    }
  }

  /** Each observation with both reset times is a member of exactly one group. */
  lemma {:induction false} ExactlyOneGroupEach(items: seq<CalibrationObservation>, o: CalibrationObservation) returns (i: nat)
    requires o in items && KeyOf(o).Some?
    ensures i < |Grouped(items)| && Grouped(items)[i].key == KeyOf(o).value
    ensures forall j :: 0 <= j < |Grouped(items)| ==> (o in Grouped(items)[j].members <==> j == i)
  {
    var groups, key := Grouped(items), KeyOf(o).value;
    GroupedExactly(items, key);
    WithKeyExactly(items, key, o);
    i := LookupIsEntry(groups, key);
    forall j | 0 <= j < |groups| ensures o in groups[j].members <==> j == i {
      EntryIsItsGroup(groups, j);
      GroupedExactly(items, groups[j].key);
      WithKeyExactly(items, groups[j].key, o);
      if i < j {
        KeysAscend(groups, i, j);
      } else if j < i {
        KeysAscend(groups, j, i);
      }
    }
  }

  /** Only the target identity is kept, each observation as often as it occurs. */
  lemma {:induction false} RetainedExactly(items: seq<CalibrationObservation>, identity: string, o: CalibrationObservation)
    ensures multiset(Retained(items, identity))[o] == if o.identity == identity then multiset(items)[o] else 0
  {
    if items != [] {
      RetainedExactly(items[..|items| - 1], identity, o);
      assert items == items[..|items| - 1] + [items[|items| - 1]];
    }
  }

  /** A kept observation is the normalised form of some observation. */
  lemma {:induction false} RetainedFrom(items: seq<CalibrationObservation>, identity: string, o: CalibrationObservation)
    requires o in Retained(items, identity)
    ensures o in items && o.identity == identity
  {
    RetainedExactly(items, identity, o);
    assert o in multiset(Retained(items, identity));
  }

  /** The original resets of two observations agree within twice the tolerance. */
  ghost predicate ResetsAgree(a: CalibrationObservation, b: CalibrationObservation) {
    && KeyOf(a).Some? && KeyOf(b).Some?
    && Abs(KeyOf(a).value.0 - KeyOf(b).value.0) <= 2 * JITTER
    && Abs(KeyOf(a).value.1 - KeyOf(b).value.1) <= 2 * JITTER
  }

  lemma {:induction false} SameKeyIsTight(items: seq<CalibrationObservation>, i: nat, j: nat)
    requires i < |items| && j < |items|
    requires KeyOf(Normalized(items)[i]).Some? && KeyOf(Normalized(items)[i]) == KeyOf(Normalized(items)[j])
    ensures ResetsAgree(items[i], items[j])
  {
    NormalizationMovesLittle(items, i);
    NormalizationMovesLittle(items, j);
  }

  /** The groups of one identity, as the report builds them from its observations. */
  function GroupsOf(items: seq<CalibrationObservation>, identity: string): seq<Entry> {
    Grouped(Retained(Normalized(items), identity))
  }

  /** `o` is the normalised form of the observation at `i`. */
  predicate ComesFrom(items: seq<CalibrationObservation>, i: int, o: CalibrationObservation) {
    0 <= i < |items| && Normalized(items)[i] == o
  }

  lemma {:induction false} MemberComesFrom(items: seq<CalibrationObservation>, identity: string, g: nat, o: CalibrationObservation)
    requires g < |GroupsOf(items, identity)| && o in GroupsOf(items, identity)[g].members
    ensures KeyOf(o) == Some(GroupsOf(items, identity)[g].key) && o.identity == identity
    ensures exists i :: ComesFrom(items, i, o)
  {
    var kept, key := Retained(Normalized(items), identity), GroupsOf(items, identity)[g].key;
    GroupedExactly(kept, key);
    EntryIsItsGroup(Grouped(kept), g);
    WithKeyExactly(kept, key, o);
    RetainedFrom(Normalized(items), identity, o);
    var i :| 0 <= i < |Normalized(items)| && Normalized(items)[i] == o;
    assert ComesFrom(items, i, o);
  }

  /**
    The members of a group the report builds are of its identity and have its
    key, and whatever observations they were normalised from had reset times
    within twice the tolerance of each other.
  */
  lemma {:induction false} GroupsAreTight(items: seq<CalibrationObservation>, identity: string, g: nat,
                                          a: CalibrationObservation, b: CalibrationObservation)
    requires g < |GroupsOf(items, identity)|
    requires a in GroupsOf(items, identity)[g].members && b in GroupsOf(items, identity)[g].members
    ensures a.identity == b.identity == identity
    ensures (exists i :: ComesFrom(items, i, a)) && (exists j :: ComesFrom(items, j, b))
    ensures forall i, j :: ComesFrom(items, i, a) && ComesFrom(items, j, b) ==> ResetsAgree(items[i], items[j])
  {
    MemberComesFrom(items, identity, g, a);
    MemberComesFrom(items, identity, g, b);
    forall i, j | ComesFrom(items, i, a) && ComesFrom(items, j, b) ensures ResetsAgree(items[i], items[j]) {
      SameKeyIsTight(items, i, j);
    }
  }
}
