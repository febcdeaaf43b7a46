/**
  A growing observations table whose evidence shrinks and comes back: a later,
  lower reading takes a window's movement away, and a later, higher one restores
  it.  Drift confirmations count the return as new evidence.
*/
module VanishingEvidence {
  import opened Options
  import opened UsageModel
  import opened ResetClassifier
  import opened Sorting
  import opened WeightedMedian
  import opened CalibrationGroups
  import opened CalibrationReport
  import opened CalibrationState

  /** Five-hour epochs ten hours apart, all within one weekly epoch. */
  const EPOCH: int := 600 * MINUTE

  const WEEKLY_RESET: Time := 0

  function FiveReset(k: nat): Time { (k + 1) * EPOCH }

  function Key(k: nat): GroupKey { (FiveReset(k), WEEKLY_RESET) }

  /** The `i`-th reading of epoch `k`. */
  function Obs(id: string, k: nat, i: nat, five: Percent, weekly: Percent): CalibrationObservation {
    CalibrationObservation(seq(4 * k + i, _ => '0'), k * EPOCH + i * SECOND,
                           Some(RateWindow(five, FIVE_HOUR_MINUTES, Some(FiveReset(k)))),
                           Some(RateWindow(weekly, WEEKLY_MINUTES, Some(WEEKLY_RESET))), id)
  }

  function Pair(id: string, k: nat): seq<CalibrationObservation> {
    [Obs(id, k, 0, 0.0, 0.0), Obs(id, k, 1, 80.0, 10.0)]
  }

  function Low(id: string, k: nat): CalibrationObservation { Obs(id, k, 2, 10.0, 10.0) }

  function High(id: string, k: nat): CalibrationObservation { Obs(id, k, 3, 80.0, 10.0) }

  /** Two readings in each of the first `n` epochs. */
  function Table(id: string, n: nat): seq<CalibrationObservation> {
    if n == 0 then [] else Table(id, n - 1) + Pair(id, n - 1)
  }

  function Groups(id: string, n: nat): seq<Entry> {
    if n == 0 then [] else Groups(id, n - 1) + [Entry(Key(n - 1), Pair(id, n - 1))]
  }

  // ----- From the table to its groups -----

  /** The table is in order, untouched by normalisation and filtering, and grouped as given; epoch `k - 1` is the last. */
  ghost predicate Built(id: string, items: seq<CalibrationObservation>, groups: seq<Entry>, k: nat) {
    && Sorted(items, NoLaterThan)
    && Normalized(items) == items
    && Retained(items, id) == items
    && Grouped(items) == groups
    && (forall e :: e in groups ==> e.key.0 <= k * EPOCH && e.key.1 == WEEKLY_RESET)
    && (items == [] <==> k == 0)
    && (k > 0 ==> Canonicals(items) == (Some(k * EPOCH), Some(WEEKLY_RESET)) && items[|items| - 1].identity == id)
    && (k == 0 ==> Canonicals(items) == (None, None))
  }

  lemma SortedAppend(items: seq<CalibrationObservation>, o: CalibrationObservation)
    requires Sorted(items, NoLaterThan) && (items != [] ==> items[|items| - 1].at <= o.at)
    ensures Sorted(items + [o], NoLaterThan)
  {
    var all := items + [o];
    forall i, j | 0 <= i < j < |all| ensures NoLaterThan(all[i], all[j]) {
      if j == |items| && i < j - 1 {
        assert NoLaterThan(items[i], items[|items| - 1]);
      }
    }
  }

  lemma {:induction false} GroupedAppend(items: seq<CalibrationObservation>, o: CalibrationObservation)
    ensures Grouped(items + [o]) == GroupOne(Grouped(items), o)
  {
    assert (items + [o])[..|items|] == items;
  }

  lemma {:induction false} RetainedAppend(items: seq<CalibrationObservation>, o: CalibrationObservation, id: string)
    requires o.identity == id
    ensures Retained(items + [o], id) == Retained(items, id) + [o]
  {
    assert (items + [o])[..|items|] == items;
  }

  /** A reading of a later epoch opens a group behind all others. */
  lemma {:induction false} PutBehind(groups: seq<Entry>, key: GroupKey, o: CalibrationObservation)
    requires forall e :: e in groups ==> KeyLess(e.key, key)
    ensures Put(groups, key, o) == groups + [Entry(key, [o])]
  {
    if groups != [] {
      assert groups[0] in groups;
      PutBehind(groups[1..], key, o);
      assert groups == [groups[0]] + groups[1..];
    } else {
      assert [Entry(key, [o])] + groups == groups + [Entry(key, [o])];
    }
  }

  /** A reading of the last epoch joins the last group. */
  lemma {:induction false} PutLast(groups: seq<Entry>, last: Entry, o: CalibrationObservation)
    requires forall e :: e in groups ==> KeyLess(e.key, last.key)
    ensures Put(groups + [last], last.key, o) == groups + [Entry(last.key, last.members + [o])]
  {
    var all := groups + [last];
    if groups != [] {
      assert groups[0] in groups && all[0] == groups[0] && all[1..] == groups[1..] + [last];
      PutLast(groups[1..], last, o);
      assert groups == [groups[0]] + groups[1..];
    } else {
      assert all[1..] == [];
    }
  }

  /** A reading of epoch `j` is left alone after readings up to epoch `j - 1` or `j`. */
  lemma {:induction false} NormalNext(items: seq<CalibrationObservation>, k: nat, j: nat, o: CalibrationObservation)
    requires k == j || k == j + 1
    requires Canonicals(items) == if k == 0 then (None, None) else (Some(k * EPOCH), Some(WEEKLY_RESET))
    requires KeyOf(o) == Some(Key(j))
    ensures NormalizeAfter(items, o) == o
    ensures (CanonicalAfter(o.fiveHour, Canonicals(items).0), CanonicalAfter(o.weekly, Canonicals(items).1))
            == (Some((j + 1) * EPOCH), Some(WEEKLY_RESET))
  {
  }

  lemma {:induction false} KeysNext(groups: seq<Entry>, k: nat, j: nat, o: CalibrationObservation)
    requires (k == j || k == j + 1) && forall e :: e in groups ==> e.key.0 <= k * EPOCH && e.key.1 == WEEKLY_RESET
    ensures forall e :: e in Put(groups, Key(j), o) ==> e.key.0 <= (j + 1) * EPOCH && e.key.1 == WEEKLY_RESET
  {
    PutKeys(groups, Key(j), o);
  }

  /** One more reading of epoch `j`, which is the last one or new. */
  lemma {:induction false} BuiltNext(id: string, items: seq<CalibrationObservation>, groups: seq<Entry>, k: nat, j: nat,
                                     o: CalibrationObservation)
    requires Built(id, items, groups, k) && (k == j || k == j + 1)
    requires o.identity == id && KeyOf(o) == Some(Key(j)) && (items != [] ==> items[|items| - 1].at <= o.at)
    ensures Built(id, items + [o], Put(groups, Key(j), o), j + 1)
  {
    SortedAppend(items, o);
    NormalizedAppend(items, o);
    NormalNext(items, k, j, o);
    RetainedAppend(items, o, id);
    GroupedAppend(items, o);
    KeysNext(groups, k, j, o);
  }

  lemma {:induction false} PutKeys(groups: seq<Entry>, key: GroupKey, o: CalibrationObservation)
    ensures forall e :: e in Put(groups, key, o) ==> e.key == key || exists f :: f in groups && f.key == e.key
  {
    if groups == [] || KeyLess(key, groups[0].key) {
      assert forall e :: e in groups ==> exists f :: f in groups && f.key == e.key;
    } else if key == groups[0].key {
      forall e | e in Put(groups, key, o) ensures e.key == key || exists f :: f in groups && f.key == e.key {
        if e.key != key {
          assert e in groups[1..] && e in groups;
        }
      }
    } else {
      PutKeys(groups[1..], key, o);
      forall e | e in Put(groups, key, o) ensures e.key == key || exists f :: f in groups && f.key == e.key {
        if e.key != key && e != groups[0] {
          assert e in Put(groups[1..], key, o);
          var f :| f in groups[1..] && f.key == e.key;
          assert f in groups;
        } else {
          assert groups[0] in groups;
        }
      }
    }
  }

  lemma {:induction false} GroupsAreEarlier(id: string, n: nat)
    ensures forall e :: e in Groups(id, n) ==> KeyLess(e.key, Key(n))
  {
    if n > 0 {
      GroupsAreEarlier(id, n - 1);
    }
  }

  lemma ObsFacts(id: string, k: nat, i: nat, five: Percent, weekly: Percent)
    ensures var o := Obs(id, k, i, five, weekly);
            o.identity == id && KeyOf(o) == Some(Key(k)) && o.at == k * EPOCH + i * SECOND
  {
  }

  /** A pair of readings of a new epoch. */
  lemma {:induction false} PairIsBuilt(id: string, items: seq<CalibrationObservation>, groups: seq<Entry>, k: nat,
                                       a: CalibrationObservation, b: CalibrationObservation)
    requires Built(id, items, groups, k) && forall e :: e in groups ==> KeyLess(e.key, Key(k))
    requires a.identity == id && KeyOf(a) == Some(Key(k)) && (items != [] ==> items[|items| - 1].at <= a.at)
    requires b.identity == id && KeyOf(b) == Some(Key(k)) && a.at <= b.at
    ensures Built(id, items + [a, b], groups + [Entry(Key(k), [a, b])], k + 1)
  {
    BuiltNext(id, items, groups, k, k, a);
    PutBehind(groups, Key(k), a);
    BuiltNext(id, items + [a], groups + [Entry(Key(k), [a])], k + 1, k, b);
    PutLast(groups, Entry(Key(k), [a]), b);
    assert items + [a] + [b] == items + [a, b] && [a] + [b] == [a, b];
  }

  lemma {:induction false} TableEnds(id: string, n: nat)
    requires n > 0
    ensures Table(id, n) != [] && Table(id, n)[|Table(id, n)| - 1] == Obs(id, n - 1, 1, 80.0, 10.0)
  {
  }

  lemma {:induction false} NextPairFits(id: string, k: nat)
    ensures var table, a, b := Table(id, k), Obs(id, k, 0, 0.0, 0.0), Obs(id, k, 1, 80.0, 10.0);
            && a.identity == b.identity == id && KeyOf(a) == KeyOf(b) == Some(Key(k)) && a.at <= b.at
            && (table != [] ==> table[|table| - 1].at <= a.at)
  {
    if k > 0 {
      TableEnds(id, k);
      ObsFacts(id, k - 1, 1, 80.0, 10.0);
    }
    ObsFacts(id, k, 0, 0.0, 0.0);
    ObsFacts(id, k, 1, 80.0, 10.0);
  }

  lemma {:induction false} TableIsBuilt(id: string, n: nat)
    ensures Built(id, Table(id, n), Groups(id, n), n)
  {
    if n > 0 {
      var k := n - 1;
      TableIsBuilt(id, k);
      GroupsAreEarlier(id, k);
      NextPairFits(id, k);
      PairIsBuilt(id, Table(id, k), Groups(id, k), k, Obs(id, k, 0, 0.0, 0.0), Obs(id, k, 1, 80.0, 10.0));
    }
  }

  /** More readings of the last epoch. */
  lemma {:induction false} TailIsBuilt(id: string, n: nat, items: seq<CalibrationObservation>, members: seq<CalibrationObservation>,
                    o: CalibrationObservation)
    requires Built(id, items, Groups(id, n) + [Entry(Key(n), members)], n + 1)
    requires o.identity == id && KeyOf(o) == Some(Key(n)) && items[|items| - 1].at <= o.at
    ensures Built(id, items + [o], Groups(id, n) + [Entry(Key(n), members + [o])], n + 1)
  {
    BuiltNext(id, items, Groups(id, n) + [Entry(Key(n), members)], n + 1, n, o);
    GroupsAreEarlier(id, n);
    PutLast(Groups(id, n), Entry(Key(n), members), o);
  }

  // ----- From the groups to the analysis -----

  function Record(k: nat, i: nat): CalibrationSample {
    SampleRecord(k * EPOCH, k * EPOCH + i * SECOND, 80.0, 10.0, 12.5, Quality.High, true)
  }

  function Records(n: nat): seq<CalibrationSample> {
    if n == 0 then [] else Records(n - 1) + [Record(n - 1, 1)]
  }

  /** A group in time order gives the sample of its first and last reading. */
  lemma {:induction false} SampleOfOrdered(group: seq<CalibrationObservation>)
    requires Sorted(group, NoLaterThan)
    ensures Sort(group, NoLaterThan) == group
  {
    SortIdentity(group, NoLaterThan);
  }

  lemma PairSample(id: string, k: nat)
    ensures SampleOf(Pair(id, k)) == Some(Record(k, 1))
  {
    SampleOfOrdered(Pair(id, k));
  }

  lemma TailSamples(id: string, k: nat)
    ensures var low := SampleOf(Pair(id, k) + [Low(id, k)]);
            low.Some? && low.value.quality == Ignored && low.value.start == k * EPOCH
    ensures SampleOf(Pair(id, k) + [Low(id, k)] + [High(id, k)]) == Some(Record(k, 3))
  {
    SampleOfOrdered(Pair(id, k) + [Low(id, k)]);
    SampleOfOrdered(Pair(id, k) + [Low(id, k)] + [High(id, k)]);
  }

  lemma {:induction false} SamplesAppend(groups: seq<Entry>, e: Entry)
    requires SampleOf(e.members).Some?
    ensures SamplesOf(groups + [e]) == SamplesOf(groups) + [SampleOf(e.members).value]
  {
    assert (groups + [e])[..|groups|] == groups;
  }

  /** Each group yields the given sample. */
  ghost predicate AllYield(groups: seq<Entry>, records: seq<CalibrationSample>) {
    |groups| == |records| && forall i :: 0 <= i < |groups| ==> SampleOf(groups[i].members) == Some(records[i])
  }

  lemma {:induction false} SamplesOfAll(groups: seq<Entry>, records: seq<CalibrationSample>)
    requires AllYield(groups, records)
    ensures SamplesOf(groups) == records
  {
    if groups != [] {
      var n := |groups| - 1;
      assert SampleOf(groups[n].members) == Some(records[n]);
      SamplesOfAll(groups[..n], records[..n]);
      SamplesAppend(groups[..n], groups[n]);
      assert groups == groups[..n] + [groups[n]] && records == records[..n] + [records[n]];
    }
  }

  lemma {:induction false} GroupAt(id: string, n: nat, i: nat)
    requires i < n
    ensures |Groups(id, n)| == n && Groups(id, n)[i] == Entry(Key(i), Pair(id, i))
    ensures |Records(n)| == n && Records(n)[i] == Record(i, 1)
  {
    if n > 1 && i < n - 1 {
      GroupAt(id, n - 1, i);
    } else if n > 1 {
      GroupAt(id, n - 1, 0);
    }
  }

  lemma {:induction false} GroupSamples(id: string, n: nat)
    ensures SamplesOf(Groups(id, n)) == Records(n)
  {
    if n > 0 {
      GroupAt(id, n, 0);
    }
    forall i | 0 <= i < n ensures SampleOf(Groups(id, n)[i].members) == Some(Records(n)[i]) {
      GroupAt(id, n, i);
      PairSample(id, i);
    }
    SamplesOfAll(Groups(id, n), Records(n));
  }

  lemma {:induction false} RecordsInOrder(n: nat, last: CalibrationSample)
    requires last.start == n * EPOCH
    ensures |Records(n)| == n && Sorted(Records(n) + [last], StartsNoLater)
    ensures forall i :: 0 <= i < n ==> Records(n)[i] == Record(i, 1)
  {
    if n > 0 {
      RecordsInOrder(n - 1, Record(n - 1, 1));
    }
  }

  /** What `n` equal qualifying windows amount to, beside one more sample. */
  lemma {:induction false} RecordsCount(n: nat)
    ensures CountQuality(Records(n), Useful) == 0 && CountQuality(Records(n), Quality.High) == n
    ensures |EstimatorInput(Records(n))| == n
    ensures forall s :: s in EstimatorInput(Records(n)) ==> s.value == 12.5
  {
    if n > 0 {
      RecordsCount(n - 1);
      assert Records(n)[..|Records(n)| - 1] == Records(n - 1);
    }
  }

  lemma EqualMedian(input: seq<Sample>)
    requires input != [] && forall s :: s in input ==> s.value == 12.5
    ensures MedianOf(input) == Some(12.5)
  {
    MedianIsMedian(input);
    var s :| s in input && s.value == MedianOf(input).value;
  }

  lemma {:induction false} SampleListAnalysis(e: Evidence, n: nat, last: CalibrationSample, identity: string)
    requires e.samples == Records(n) + [last] && e.identity == identity && n >= MINIMUM_RECOMMENDATION_SAMPLES
    requires last.quality == Ignored || (last.quality == Quality.High && last.implied == 12.5)
    ensures AnalysisOf(e) == Outcome(identity, if last.quality == Ignored then n else n + 1, Some(12.5))
  {
    RecordsCount(n);
    assert e.samples[..|e.samples| - 1] == Records(n);
    EqualMedian(EstimatorInput(e.samples));
  }

  /** The analysis of such a table, by its last sample. */
  lemma {:induction false} BuiltAnalysis(id: string, n: nat, items: seq<CalibrationObservation>, members: seq<CalibrationObservation>,
                      active: string)
    requires n >= MINIMUM_RECOMMENDATION_SAMPLES
    requires Built(id, items, Groups(id, n) + [Entry(Key(n), members)], n + 1)
    requires SampleOf(members).Some? && SampleOf(members).value.start == n * EPOCH
    requires var last := SampleOf(members).value;
             last.quality == Ignored || (last.quality == Quality.High && last.implied == 12.5)
    ensures AnalysisOf(EvidenceOf(items, active))
            == Outcome(id, if SampleOf(members).value.quality == Ignored then n else n + 1, Some(12.5))
  {
    var last := SampleOf(members).value;
    SortIdentity(items, NoLaterThan);
    GroupSamples(id, n);
    SamplesAppend(Groups(id, n), Entry(Key(n), members));
    RecordsInOrder(n, last);
    SortIdentity(Records(n) + [last], StartsNoLater);
    SampleListAnalysis(EvidenceOf(items, active), n, last, id);
  }

  lemma {:induction false} KeysAreShort(id: string, n: nat)
    ensures forall o :: o in Table(id, n) ==> |o.sourceKey| + 2 < 4 * n
  {
    if n > 0 {
      KeysAreShort(id, n - 1);
    }
  }

  /** The two readings are new to the table they are inserted into. */
  lemma {:induction false} ReadingsAreNew(id: string, k: nat)
    ensures !IsKnown(Table(id, k + 1), Low(id, k).sourceKey)
    ensures !IsKnown(Table(id, k + 1) + [Low(id, k)], High(id, k).sourceKey)
  {
    KeysAreShort(id, k + 1);
    assert |Low(id, k).sourceKey| == 4 * k + 2 && |High(id, k).sourceKey| == 4 * k + 3;
  }

  /** The table's last group yields a qualifying sample, or one that is ignored. */
  ghost predicate Yields(id: string, k: nat, items: seq<CalibrationObservation>, qualifies: bool) {
    exists members :: YieldsFrom(id, k, items, members, qualifies)
  }

  ghost predicate YieldsFrom(id: string, k: nat, items: seq<CalibrationObservation>, members: seq<CalibrationObservation>,
                             qualifies: bool)
  {
    && Built(id, items, Groups(id, k) + [Entry(Key(k), members)], k + 1)
    && SampleOf(members).Some? && SampleOf(members).value.start == k * EPOCH
    && var last := SampleOf(members).value;
       if qualifies then last.quality == Quality.High && last.implied == 12.5 else last.quality == Ignored
  }

  /** The table with the later, lower reading, and with the still later, higher one. */
  function Lower(id: string, k: nat): seq<CalibrationObservation> {
    Table(id, k + 1) + [Low(id, k)]
  }

  function Higher(id: string, k: nat): seq<CalibrationObservation> {
    Lower(id, k) + [High(id, k)]
  }

  lemma {:induction false} LastAt(id: string, k: nat)
    ensures Table(id, k + 1) != [] && Table(id, k + 1)[|Table(id, k + 1)| - 1].at <= Low(id, k).at <= High(id, k).at
  {
    TableEnds(id, k + 1);
    ObsFacts(id, k, 1, 80.0, 10.0);
    ObsFacts(id, k, 2, 10.0, 10.0);
    ObsFacts(id, k, 3, 80.0, 10.0);
  }

  lemma {:induction false} LowerIsBuilt(id: string, k: nat)
    ensures Built(id, Lower(id, k), Groups(id, k) + [Entry(Key(k), Pair(id, k) + [Low(id, k)])], k + 1)
  {
    TableIsBuilt(id, k + 1);
    LastAt(id, k);
    ObsFacts(id, k, 2, 10.0, 10.0);
    TailIsBuilt(id, k, Table(id, k + 1), Pair(id, k), Low(id, k));
  }

  lemma {:induction false} HigherIsBuilt(id: string, k: nat)
    ensures Built(id, Higher(id, k), Groups(id, k) + [Entry(Key(k), Pair(id, k) + [Low(id, k)] + [High(id, k)])], k + 1)
  {
    LowerIsBuilt(id, k);
    LastAt(id, k);
    ObsFacts(id, k, 3, 80.0, 10.0);
    TailIsBuilt(id, k, Lower(id, k), Pair(id, k) + [Low(id, k)], High(id, k));
  }

  lemma {:induction false} FullYields(id: string, k: nat)
    ensures Yields(id, k, Table(id, k + 1), true)
  {
    TableIsBuilt(id, k + 1);
    PairSample(id, k);
    assert YieldsFrom(id, k, Table(id, k + 1), Pair(id, k), true);
  }

  lemma {:induction false} LowerYields(id: string, k: nat)
    ensures Yields(id, k, Lower(id, k), false)
  {
    LowerIsBuilt(id, k);
    TailSamples(id, k);
    assert YieldsFrom(id, k, Lower(id, k), Pair(id, k) + [Low(id, k)], false);
  }

  lemma {:induction false} HigherYields(id: string, k: nat)
    ensures Yields(id, k, Higher(id, k), true)
  {
    HigherIsBuilt(id, k);
    TailSamples(id, k);
    assert YieldsFrom(id, k, Higher(id, k), Pair(id, k) + [Low(id, k)] + [High(id, k)], true);
  }

  lemma YieldsAnalysis(id: string, k: nat, items: seq<CalibrationObservation>, qualifies: bool, active: string)
    requires Yields(id, k, items, qualifies) && k >= MINIMUM_RECOMMENDATION_SAMPLES
    ensures AnalysisOf(EvidenceOf(items, active)) == Outcome(id, if qualifies then k + 1 else k, Some(12.5))
  {
    var members :| YieldsFrom(id, k, items, members, qualifies);
    BuiltAnalysis(id, k, items, members, active);
  }

  /** The three states of the table, of which only what the insertions and the analyses make of them is told. */
  lemma {:induction false} ThreeTables(id: string, k: nat)
    returns (full: seq<CalibrationObservation>, x: CalibrationObservation, y: CalibrationObservation)
    ensures WithObservation(full, x) == full + [x] && WithObservation(full + [x], y) == full + [x] + [y]
    ensures Yields(id, k, full, true) && Yields(id, k, full + [x], false) && Yields(id, k, full + [x] + [y], true)
  {
    full, x, y := Table(id, k + 1), Low(id, k), High(id, k);
    ReadingsAreNew(id, k);
    FullYields(id, k);
    LowerYields(id, k);
    HigherYields(id, k);
  }

  function Seen(id: string, count: nat): Analysis
    requires count >= MINIMUM_RECOMMENDATION_SAMPLES
  {
    Outcome(id, count, Some(12.5))
  }

  /** An analysis of such a table sees the given number of windows. */
  ghost predicate Sees(items: seq<CalibrationObservation>, active: string, id: string, count: nat)
    requires count >= MINIMUM_RECOMMENDATION_SAMPLES
  {
    AnalysisOf(EvidenceOf(items, active)) == Seen(id, count)
  }

  function KeysOf(groups: seq<Entry>): seq<GroupKey> {
    if groups == [] then [] else KeysOf(groups[..|groups| - 1]) + [groups[|groups| - 1].key]
  }

  function EpochKeys(n: nat): seq<GroupKey> {
    if n == 0 then [] else EpochKeys(n - 1) + [Key(n - 1)]
  }

  lemma {:induction false} KeysAppend(groups: seq<Entry>, e: Entry)
    ensures KeysOf(groups + [e]) == KeysOf(groups) + [e.key]
  {
    assert (groups + [e])[..|groups|] == groups;
  }

  lemma {:induction false} GroupKeys(id: string, n: nat)
    ensures KeysOf(Groups(id, n)) == EpochKeys(n)
  {
    if n > 0 {
      GroupKeys(id, n - 1);
      KeysAppend(Groups(id, n - 1), Entry(Key(n - 1), Pair(id, n - 1)));
    }
  }

  /** The keys of the groups the report builds, in order. */
  function ReportKeys(id: string, items: seq<CalibrationObservation>): seq<GroupKey> {
    KeysOf(GroupsOf(Sort(items, NoLaterThan), id))
  }

  lemma {:induction false} YieldsEpochs(id: string, k: nat, items: seq<CalibrationObservation>, qualifies: bool)
    requires Yields(id, k, items, qualifies)
    ensures ReportKeys(id, items) == EpochKeys(k + 1)
  {
    var members :| YieldsFrom(id, k, items, members, qualifies);
    SortIdentity(items, NoLaterThan);
    GroupKeys(id, k);
    KeysAppend(Groups(id, k), Entry(Key(k), members));
  }

  lemma YieldsSees(id: string, k: nat, full: seq<CalibrationObservation>, x: CalibrationObservation,
                   y: CalibrationObservation, active: string)
    requires Yields(id, k, full, true) && Yields(id, k, full + [x], false) && Yields(id, k, full + [x] + [y], true)
    requires k >= MINIMUM_RECOMMENDATION_SAMPLES
    ensures Sees(full, active, id, k + 1) && Sees(full + [x], active, id, k) && Sees(full + [x] + [y], active, id, k + 1)
  {
    YieldsAnalysis(id, k, full, true, active);
    YieldsAnalysis(id, k, full + [x], false, active);
    YieldsAnalysis(id, k, full + [x] + [y], true, active);
  }

  /**
    With at least six qualifying windows, two more readings of the last one, each
    inserted into the table, make three analyses that see n, n - 1 and n windows,
    and the confirmation count reaches two.  All three tables group into the same
    epochs (`YieldsEpochs`), so no window is ever added.
  */
  lemma GrowingTableConfirmsItself(id: string, n: nat, active: string)
    returns (full: seq<CalibrationObservation>, x: CalibrationObservation, y: CalibrationObservation)
    requires n > MINIMUM_RECOMMENDATION_SAMPLES
    ensures RowAfter([Seen(id, n), Seen(id, n - 1), Seen(id, n)]) == Some(Row(n, Some(12.5), 2))
    ensures WithObservation(full, x) == full + [x] && WithObservation(full + [x], y) == full + [x] + [y]
    ensures Sees(full, active, id, n) && Sees(full + [x], active, id, n - 1) && Sees(full + [x] + [y], active, id, n)
    ensures Yields(id, n - 1, full, true) && Yields(id, n - 1, full + [x], false) && Yields(id, n - 1, full + [x] + [y], true)
  {
    full, x, y := ThreeTables(id, n - 1);
    YieldsSees(id, n - 1, full, x, y, active);
    ReturningEvidenceConfirmsItself(Seen(id, n), Seen(id, n - 1));
  }
}
