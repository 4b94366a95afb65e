/** Sorting by a comparator, as the stores do after every insert or edit.

    The stores sort with C's `qsort`, which is not stable: among elements the
    comparator ranks equal, the resulting order is unspecified. So everything
    here is stated as "sorted and a permutation"; `Sort` is one such sort. */
module Sorting {

  /** `le` is total and transitive: a comparator `qsort` can be trusted with. */
  ghost predicate TotalPreorder<T(!new)>(le: (T, T) -> bool) {
    && (forall a, b :: le(a, b) || le(b, a))
    && (forall a, b, c :: le(a, b) && le(b, c) ==> le(a, c))
  }

  /** Every element is ranked no later than every element after it. */
  predicate SortedBy<T>(le: (T, T) -> bool, s: seq<T>) {
    forall i, j | 0 <= i < j < |s| :: le(s[i], s[j])
  }

  /** Sorted with no ties: each element is ranked strictly before every later one. */
  predicate StrictlySortedBy<T>(le: (T, T) -> bool, s: seq<T>) {
    forall i, j | 0 <= i < j < |s| :: le(s[i], s[j]) && !le(s[j], s[i])
  }

  /** Inserts `x` into the sorted `s`, in front of the first element it is ranked no later than. */
  function Insert<T(!new)>(le: (T, T) -> bool, x: T, s: seq<T>): (r: seq<T>)
    requires TotalPreorder(le)
    requires SortedBy(le, s)
    ensures multiset(r) == multiset(s) + multiset{x}
    ensures SortedBy(le, r)
  {
    if |s| == 0 then [x]
    else if le(x, s[0]) then
      assert forall j | 1 <= j < |s| :: le(x, s[j]) by {
        forall j | 1 <= j < |s| ensures le(x, s[j]) {
          assert le(s[0], s[j]);
        }
      }
      assert s == [s[0]] + s[1..];
      [x] + s
    else
      var rest := Insert(le, x, s[1..]);
      assert forall j | 0 <= j < |rest| :: le(s[0], rest[j]) by {
        forall j | 0 <= j < |rest| ensures le(s[0], rest[j]) {
          assert rest[j] in multiset(rest);
          if rest[j] != x {
            assert rest[j] in multiset(s[1..]);
            var k :| 0 <= k < |s[1..]| && s[1..][k] == rest[j];
            assert le(s[0], s[k + 1]);
          }
        }
      }
      assert s == [s[0]] + s[1..];
      [s[0]] + rest
  }

  /** An insertion sort: a sorted permutation of `s`. */
  function Sort<T(!new)>(le: (T, T) -> bool, s: seq<T>): (r: seq<T>)
    requires TotalPreorder(le)
    ensures multiset(r) == multiset(s)
    ensures SortedBy(le, r)
  {
    if |s| == 0 then []
    else
      assert s == [s[0]] + s[1..];
      Insert(le, s[0], Sort(le, s[1..]))
  }

  /** A list sorted without ties is the only sorted arrangement of its elements,
      so any sort, stable or not, leaves it as it is. */
  lemma {:induction false} StrictlySortedIsUnique<T>(le: (T, T) -> bool, a: seq<T>, b: seq<T>)
    requires StrictlySortedBy(le, a)
    requires SortedBy(le, b)
    requires multiset(a) == multiset(b)
    ensures a == b
    decreases |a|
  {
    assert |a| == |multiset(a)| == |multiset(b)| == |b|;
    if |a| > 0 {
      SameFirst(le, a, b);
      DropFirst(a, b);
      assert StrictlySortedBy(le, a[1..]);
      assert SortedBy(le, b[1..]);
      StrictlySortedIsUnique(le, a[1..], b[1..]);
      assert a == [a[0]] + a[1..];
      assert b == [b[0]] + b[1..];
    }
  }

  /** The first element of a tie-free sorted list comes first in every sorted arrangement. */
  lemma SameFirst<T>(le: (T, T) -> bool, a: seq<T>, b: seq<T>)
    requires |a| > 0 && |b| > 0
    requires StrictlySortedBy(le, a)
    requires SortedBy(le, b)
    requires multiset(a) == multiset(b)
    ensures a[0] == b[0]
  {
    assert a[0] in multiset(b);
    var m :| 0 <= m < |b| && b[m] == a[0];
    assert b[0] in multiset(a);
    var k :| 0 <= k < |a| && a[k] == b[0];
  }

  /** Equal multisets with equal first elements have equal tails. */
  lemma DropFirst<T>(a: seq<T>, b: seq<T>)
    requires |a| > 0 && |b| > 0 && a[0] == b[0]
    requires multiset(a) == multiset(b)
    ensures multiset(a[1..]) == multiset(b[1..])
  {
    assert a == [a[0]] + a[1..];
    assert b == [b[0]] + b[1..];
    assert multiset(a[1..]) == multiset(a) - multiset{a[0]};
    assert multiset(b[1..]) == multiset(b) - multiset{b[0]};
  }

  /** Sorting a list that is already sorted without ties changes nothing. */
  lemma SortKeepsStrictlySorted<T(!new)>(le: (T, T) -> bool, s: seq<T>)
    requires TotalPreorder(le)
    requires StrictlySortedBy(le, s)
    ensures Sort(le, s) == s
  {
    StrictlySortedIsUnique(le, s, Sort(le, s));
  }

  /** Removing one element keeps a sorted list sorted. */
  lemma SortedRemove<T>(le: (T, T) -> bool, s: seq<T>, i: int)
    requires 0 <= i < |s|
    requires SortedBy(le, s)
    ensures SortedBy(le, s[..i] + s[i + 1..])
  {
    var r := s[..i] + s[i + 1..];
    forall p, q | 0 <= p < q < |r| ensures le(r[p], r[q]) {
      var p' := if p < i then p else p + 1;
      var q' := if q < i then q else q + 1;
      assert r[p] == s[p'] && r[q] == s[q'];
    }
  }
}
