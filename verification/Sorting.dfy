/**
  The stable sort behind `sort_by`, `sort_by_key` and SQL's `ORDER BY`.  The
  lemmas say that it permutes its input, that the result is ordered, and that
  under an antisymmetric order the result depends only on which elements occur.
*/
module Sorting {

  ghost predicate IsTotalPreorder<T(!new)>(le: (T, T) -> bool) {
    && (forall x, y :: le(x, y) || le(y, x))
    && (forall x, y, z :: le(x, y) && le(y, z) ==> le(x, z))
  }

  ghost predicate Sorted<T>(s: seq<T>, le: (T, T) -> bool) {
    forall i, j :: 0 <= i < j < |s| ==> le(s[i], s[j])
  }

  function Insert<T>(x: T, s: seq<T>, le: (T, T) -> bool): (r: seq<T>)
    ensures |r| == |s| + 1
  {
    if s == [] then [x]
    else if le(x, s[0]) then [x] + s
    else [s[0]] + Insert(x, s[1..], le)
  }

  /** Insertion from the right keeps the input order of equal elements. */
  function Sort<T>(s: seq<T>, le: (T, T) -> bool): (r: seq<T>)
    ensures |r| == |s|
  {
    if s == [] then [] else Insert(s[0], Sort(s[1..], le), le)
  }

  lemma {:induction false} InsertPermutes<T>(x: T, s: seq<T>, le: (T, T) -> bool)
    ensures multiset(Insert(x, s, le)) == multiset{x} + multiset(s)
  {
    if s == [] {
    } else {
      assert s == [s[0]] + s[1..];
      if !le(x, s[0]) {
        InsertPermutes(x, s[1..], le);
      }
    }
  }

  lemma {:induction false} SortPermutes<T>(s: seq<T>, le: (T, T) -> bool)
    ensures multiset(Sort(s, le)) == multiset(s)
  {
    if s == [] {
    } else {
      SortPermutes(s[1..], le);
      InsertPermutes(s[0], Sort(s[1..], le), le);
      assert s == [s[0]] + s[1..];
    }
  }

  lemma {:induction false} InsertSorted<T(!new)>(x: T, s: seq<T>, le: (T, T) -> bool)
    requires IsTotalPreorder(le) && Sorted(s, le)
    ensures Sorted(Insert(x, s, le), le)
  {
    if s == [] {
    } else if le(x, s[0]) {
    } else {
      var r := Insert(x, s[1..], le);
      InsertSorted(x, s[1..], le);
      InsertPermutes(x, s[1..], le);
      forall k | 0 <= k < |r| ensures le(s[0], r[k]) {
        assert r[k] in multiset(r);
        assert r[k] == x || r[k] in multiset(s[1..]);
      }
    }
  }

  lemma {:induction false} SortSorted<T(!new)>(s: seq<T>, le: (T, T) -> bool)
    requires IsTotalPreorder(le)
    ensures Sorted(Sort(s, le), le)
  {
    if s == [] {
    } else {
      SortSorted(s[1..], le);
      InsertSorted(s[0], Sort(s[1..], le), le);
    }
  }

  /** A sorted sequence is left alone. */
  lemma {:induction false} SortIdentity<T(!new)>(s: seq<T>, le: (T, T) -> bool)
    requires Sorted(s, le)
    ensures Sort(s, le) == s
  {
    if s == [] {
    } else {
      SortIdentity(s[1..], le);
    }
  }

  /** Nothing is below element `i`, and nothing before it is level with it. */
  ghost predicate IsFirst<T>(s: seq<T>, le: (T, T) -> bool, i: int) {
    && 0 <= i < |s|
    && (forall k :: 0 <= k < |s| ==> le(s[i], s[k]))
    && (forall k :: 0 <= k < i ==> !le(s[k], s[i]))
  }

  /** Nothing is above element `i`, and nothing after it is level with it. */
  ghost predicate IsLast<T>(s: seq<T>, le: (T, T) -> bool, i: int) {
    && 0 <= i < |s|
    && (forall k :: 0 <= k < |s| ==> le(s[k], s[i]))
    && (forall k :: i < k < |s| ==> !le(s[i], s[k]))
  }

  lemma {:induction false} InsertEnds<T>(x: T, s: seq<T>, le: (T, T) -> bool)
    ensures Insert(x, s, le)[0] == if s == [] || le(x, s[0]) then x else s[0]
    ensures s != [] && Sorted(s, le) && le(x, s[|s| - 1]) ==> Insert(x, s, le)[|s|] == s[|s| - 1]
    ensures (forall k :: 0 <= k < |s| ==> !le(x, s[k])) ==> Insert(x, s, le)[|s|] == x
  {
    if s != [] && !le(x, s[0]) {
      InsertEnds(x, s[1..], le);
    }
  }

  /** Where the ends of the sorted sequence come from: among equals, the first and the last to arrive. */
  lemma {:induction false} SortEnds<T(!new)>(s: seq<T>, le: (T, T) -> bool) returns (i: nat, j: nat)
    requires IsTotalPreorder(le) && s != []
    ensures IsFirst(s, le, i) && Sort(s, le)[0] == s[i]
    ensures IsLast(s, le, j) && Sort(s, le)[|s| - 1] == s[j]
  {
    i, j := 0, 0;
    var x, rest := s[0], s[1..];
    assert le(x, x);
    InsertEnds(x, Sort(rest, le), le);
    if rest != [] {
      var a, b := SortEnds(rest, le);
      SortSorted(rest, le);
      if !le(x, rest[b]) {
        SortAtMost(x, rest, le, b);
      }
      assert forall k :: 0 < k < |s| ==> s[k] == rest[k - 1];
      if !le(x, rest[a]) {
        i := a + 1;
      }
      if le(x, rest[b]) {
        j := b + 1;
      }
    }
  }

  /** If the element is not below the last, it is below none. */
  lemma {:induction false} SortAtMost<T(!new)>(x: T, s: seq<T>, le: (T, T) -> bool, b: nat)
    requires IsTotalPreorder(le) && IsLast(s, le, b) && !le(x, s[b])
    ensures forall k :: 0 <= k < |s| ==> !le(x, Sort(s, le)[k])
  {
    SortPermutes(s, le);
    forall k | 0 <= k < |s| ensures !le(x, Sort(s, le)[k]) {
      assert Sort(s, le)[k] in multiset(Sort(s, le));
      assert Sort(s, le)[k] in s;
    }
  }

  lemma EndsAreUnique<T(!new)>(s: seq<T>, le: (T, T) -> bool, i: int, j: int)
    ensures IsFirst(s, le, i) && IsFirst(s, le, j) ==> i == j
    ensures IsLast(s, le, i) && IsLast(s, le, j) ==> i == j
  {
    if 0 <= i < j < |s| {
      assert le(s[i], s[j]) || !le(s[i], s[j]);
    } else if 0 <= j < i < |s| {
      assert le(s[j], s[i]) || !le(s[j], s[i]);
    }
  }

  lemma HeadAtMost<T(!new)>(s: seq<T>, x: T, le: (T, T) -> bool)
    requires IsTotalPreorder(le) && Sorted(s, le) && x in s
    ensures le(s[0], x)
  {
    var i :| 0 <= i < |s| && s[i] == x;
    assert le(s[0], s[0]);
  }

  lemma SameHead<T(!new)>(a: seq<T>, b: seq<T>, le: (T, T) -> bool)
    requires IsTotalPreorder(le) && a != [] && b != []
    requires Sorted(a, le) && Sorted(b, le)
    requires multiset(a) == multiset(b)
    ensures le(a[0], b[0]) && le(b[0], a[0])
  {
    assert a[0] in multiset(a) && b[0] in multiset(b);
    HeadAtMost(a, b[0], le);
    HeadAtMost(b, a[0], le);
  }

  lemma TailMultiset<T>(s: seq<T>)
    requires s != []
    ensures multiset(s[1..]) == multiset(s) - multiset{s[0]}
  {
    assert s == [s[0]] + s[1..];
  }

  /** Two ordered arrangements of the same elements are the same sequence. */
  lemma {:induction false} SortedUnique<T(!new)>(a: seq<T>, b: seq<T>, le: (T, T) -> bool)
    requires IsTotalPreorder(le)
    requires forall x, y :: x in a && y in a && le(x, y) && le(y, x) ==> x == y
    requires Sorted(a, le) && Sorted(b, le)
    requires multiset(a) == multiset(b)
    ensures a == b
  {
    assert |a| == |multiset(a)| == |multiset(b)| == |b|;
    if a == [] {
    } else {
      SameHead(a, b, le);
      assert a[0] == b[0] by {
        assert a[0] in a && b[0] in multiset(b) && b[0] in multiset(a);
      }
      TailMultiset(a);
      TailMultiset(b);
      SortedUnique(a[1..], b[1..], le);
    }
  }

  /** The order in which elements arrive is irrelevant to a strict order. */
  lemma {:induction false} SortIgnoresArrival<T(!new)>(a: seq<T>, b: seq<T>, le: (T, T) -> bool)
    requires IsTotalPreorder(le)
    requires forall x, y :: x in a && y in a && le(x, y) && le(y, x) ==> x == y
    requires multiset(a) == multiset(b)
    ensures Sort(a, le) == Sort(b, le)
  {
    SortPermutes(a, le);
    SortPermutes(b, le);
    SortSorted(a, le);
    SortSorted(b, le);
    forall x | x in Sort(a, le) ensures x in a {
      assert x in multiset(Sort(a, le));
    }
    SortedUnique(Sort(a, le), Sort(b, le), le);
  }
}
