/** The growable list both stores are built on: a sequence of items plus the
    capacity of the buffer behind it. The buffer starts at a fixed size and
    doubles when an insert finds it full; growth is assumed to succeed. */
module Lists {
  import opened Sorting

  datatype List<T> = List(items: seq<T>, capacity: int)
  {
    /** The buffer exists and holds every item. */
    predicate Valid() {
      0 < capacity && |items| <= capacity
    }
  }

  /** The capacity an insert leaves behind: doubled exactly when the list is full. */
  function GrownCapacity<T>(l: List<T>): (c: int)
    ensures l.Valid() ==> |l.items| < c && c <= 2 * l.capacity
    ensures |l.items| < l.capacity ==> c == l.capacity
  {
    if |l.items| >= l.capacity then 2 * l.capacity else l.capacity
  }

  /** Appends `x` and re-sorts the whole list. */
  function Add<T(!new)>(le: (T, T) -> bool, l: List<T>, x: T): (r: List<T>)
    requires TotalPreorder(le)
    ensures |r.items| == |l.items| + 1
    ensures multiset(r.items) == multiset(l.items) + multiset{x}
    ensures SortedBy(le, r.items)
    ensures r.capacity == GrownCapacity(l)
    ensures l.Valid() ==> r.Valid()
  {
    List(Sort(le, l.items + [x]), GrownCapacity(l))
  }

  /** Removes the item at `index`, shifting every later item down by one.
      An index outside the list is refused and nothing changes. */
  method Delete<T>(l: List<T>, index: int) returns (r: List<T>, ok: bool)
    ensures ok <==> 0 <= index < |l.items|
    ensures !ok ==> r == l
    ensures ok ==> |r.items| == |l.items| - 1
    ensures ok ==> forall k :: 0 <= k < index ==> r.items[k] == l.items[k]
    ensures ok ==> forall k :: index <= k < |r.items| ==> r.items[k] == l.items[k + 1]
    ensures ok ==> r.items == l.items[..index] + l.items[index + 1..]
    ensures r.capacity == l.capacity
    ensures l.Valid() ==> r.Valid()
  {
    if index < 0 || index >= |l.items| {
      return l, false;
    }
    var a := l.items;
    var i := index;
    while i < |a| - 1
      invariant index <= i <= |a| - 1
      invariant |a| == |l.items|
      invariant forall k :: 0 <= k < index ==> a[k] == l.items[k]
      invariant forall k :: index <= k < i ==> a[k] == l.items[k + 1]
      invariant forall k :: i <= k < |a| ==> a[k] == l.items[k]
    {
      a := a[i := a[i + 1]];
      i := i + 1;
    }
    r := List(a[..|a| - 1], l.capacity);
    ok := true;
  }

  /** Overwrites the item at `index` and re-sorts. An index outside the list is
      refused and nothing changes. */
  function Edit<T(!new)>(le: (T, T) -> bool, l: List<T>, index: int, x: T): (r: (List<T>, bool))
    requires TotalPreorder(le)
    ensures r.1 <==> 0 <= index < |l.items|
    ensures !r.1 ==> r.0 == l
    ensures r.1 ==> |r.0.items| == |l.items|
    ensures r.1 ==> multiset(r.0.items) == multiset(l.items) - multiset{l.items[index]} + multiset{x}
    ensures r.1 ==> SortedBy(le, r.0.items)
    ensures r.0.capacity == l.capacity
  {
    if index < 0 || index >= |l.items| then (l, false)
    else
      var s := l.items[index := x];
      assert l.items == l.items[..index] + [l.items[index]] + l.items[index + 1..];
      assert s == l.items[..index] + [x] + l.items[index + 1..];
      (List(Sort(le, s), l.capacity), true)
  }
}
