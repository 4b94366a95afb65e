/** The binary store files. A file is written as the format version, the
    number of records, and then the records themselves; loading checks the
    version, makes room for the announced count, reads as many records as the
    file still holds (up to that count) and sorts them with the store's own
    order. The file is modelled as a stream of tokens rather than bytes. */
module Storage {
  import opened Sorting
  import opened Lists
  import Appointments
  import Todos

  /** The only format version the loader accepts. */
  const StorageVersion: int := 1

  /** One read unit of a store file: an `int` field or one whole record. A
      token of the wrong kind where a read expects the other is an
      unreadable read, just as a read past the end of the file is. */
  datatype Token<R> = Num(n: int) | Rec(r: R)

  /** The records of `items`, in order. */
  function Records<R>(items: seq<R>): (s: seq<Token<R>>)
    ensures |s| == |items|
    ensures forall i | 0 <= i < |items| :: s[i] == Rec(items[i])
  {
    seq(|items|, i requires 0 <= i < |items| => Rec(items[i]))
  }

  /** What a save writes: version, count, every record. */
  function Save<R>(items: seq<R>): (s: seq<Token<R>>)
    ensures |s| == |items| + 2
    ensures s[0] == Num(StorageVersion) && s[1] == Num(|items|)
    ensures s[2..] == Records(items)
  {
    [Num(StorageVersion), Num(|items|)] + Records(items)
  }

  /** Reads up to `want` records from the front of `s`, stopping early at the
      end of the file or at the first unreadable record. */
  function ReadRecords<R>(s: seq<Token<R>>, want: int): (r: seq<R>)
    ensures |r| <= |s|
    ensures want <= 0 ==> r == []
    ensures want > 0 ==> |r| <= want
    ensures forall i | 0 <= i < |r| :: s[i] == Rec(r[i])
    ensures 0 <= |r| < want ==> |r| == |s| || !s[|r|].Rec?
    decreases |s|
  {
    if want <= 0 || |s| == 0 || !s[0].Rec? then []
    else [s[0].r] + ReadRecords(s[1..], want - 1)
  }

  /** Only the records of `s` that come before the first unreadable one and
      within the `want` budget are ever looked at. */
  lemma {:induction false} ReadRecordsOfRecords<R>(items: seq<R>, want: int)
    ensures ReadRecords(Records(items), want) == if want <= 0 then [] else items[..if want < |items| then want else |items|]
    decreases |items|
  {
    if want > 0 && |items| > 0 {
      assert Records(items)[1..] == Records(items[1..]);
      ReadRecordsOfRecords(items[1..], want - 1);
    }
  }

  /** The capacity a load leaves: twice the announced count when that exceeds
      the current capacity, otherwise unchanged. */
  function ReservedCapacity(capacity: int, count: int): (c: int)
    ensures capacity >= 0 ==> c >= capacity && c >= count
    ensures count <= capacity ==> c == capacity
    ensures count > capacity ==> c == 2 * count
  {
    if count > capacity then 2 * count else capacity
  }

  /** Loads the file `s` into `l` using the order `le`. A missing or wrong
      version, or a missing count, fails and leaves `l` as it was. Otherwise
      the previous contents are replaced by the records read, sorted. */
  function Load<R(!new)>(le: (R, R) -> bool, l: List<R>, s: seq<Token<R>>): (r: (List<R>, bool))
    requires TotalPreorder(le)
    ensures r.1 <==> |s| >= 2 && s[0] == Num(StorageVersion) && s[1].Num?
    ensures !r.1 ==> r.0 == l
    ensures r.1 ==> multiset(r.0.items) == multiset(ReadRecords(s[2..], s[1].n))
    ensures r.1 ==> SortedBy(le, r.0.items)
    ensures r.1 ==> r.0.capacity == ReservedCapacity(l.capacity, s[1].n)
    ensures l.Valid() ==> r.0.Valid()
  {
    if |s| < 1 || s[0] != Num(StorageVersion) then (l, false)
    else if |s| < 2 || !s[1].Num? then (l, false)
    else
      var count := s[1].n;
      var records := ReadRecords(s[2..], count);
      var sorted := Sort(le, records);
      assert |sorted| == |multiset(sorted)| == |multiset(records)| == |records|;
      (List(sorted, ReservedCapacity(l.capacity, count)), true)
  }

  /** Loading what was saved brings back the same items, sorted; the buffer
      grows to twice their number when they did not fit. */
  lemma LoadSaved<R(!new)>(le: (R, R) -> bool, l: List<R>, items: seq<R>)
    requires TotalPreorder(le)
    ensures var r := Load(le, l, Save(items));
      && r.1
      && multiset(r.0.items) == multiset(items)
      && SortedBy(le, r.0.items)
      && r.0.capacity == ReservedCapacity(l.capacity, |items|)
  {
    var s := Save(items);
    assert s[2..] == Records(items);
    ReadRecordsOfRecords(items, |items|);
    assert items[..|items|] == items;
    assert ReadRecords(s[2..], s[1].n) == items;
  }

  /** A list that was sorted without ties comes back exactly as it was saved. */
  lemma LoadSavedExactly<R(!new)>(le: (R, R) -> bool, l: List<R>, items: seq<R>)
    requires TotalPreorder(le)
    requires StrictlySortedBy(le, items)
    ensures Load(le, l, Save(items)).0.items == items
  {
    LoadSaved(le, l, items);
    var r := Load(le, l, Save(items));
    StrictlySortedIsUnique(le, items, r.0.items);
  }

  /** A file cut short after `k` records still loads: the records that
      survived, sorted, while the count still reserves room for all of them. */
  lemma LoadTruncated<R(!new)>(le: (R, R) -> bool, l: List<R>, items: seq<R>, k: int)
    requires TotalPreorder(le)
    requires 0 <= k <= |items|
    ensures var r := Load(le, l, Save(items)[..k + 2]);
      && r.1
      && multiset(r.0.items) == multiset(items[..k])
      && r.0.capacity == ReservedCapacity(l.capacity, |items|)
  {
    var s := Save(items)[..k + 2];
    assert s[1] == Num(|items|);
    assert s[2..] == Records(items[..k]);
    ReadRecordsOfRecords(items[..k], |items|);
    assert items[..k][..k] == items[..k];
    assert ReadRecords(s[2..], s[1].n) == items[..k];
  }

  /** Records past the announced count are never read. */
  lemma LoadStopsAtCount<R(!new)>(le: (R, R) -> bool, l: List<R>, items: seq<R>, extra: seq<R>)
    requires TotalPreorder(le)
    ensures var r := Load(le, l, Save(items) + Records(extra));
      r.1 && multiset(r.0.items) == multiset(items)
  {
    var s := Save(items) + Records(extra);
    assert s[2..] == Records(items + extra);
    ReadRecordsOfRecords(items + extra, |items|);
    assert (items + extra)[..|items|] == items;
  }

  // ---------------------------------------------------------------------------
  // The two store files

  function SaveAppointments(l: Appointments.AppointmentList): (s: seq<Token<Appointments.Appointment>>)
    ensures |s| == |l.items| + 2
    ensures s[0] == Num(StorageVersion) && s[1] == Num(|l.items|)
    ensures forall i | 0 <= i < |l.items| :: s[i + 2] == Rec(l.items[i])
  {
    Save(l.items)
  }

  function LoadAppointments(l: Appointments.AppointmentList, s: seq<Token<Appointments.Appointment>>)
    : (r: (Appointments.AppointmentList, bool))
    ensures r.1 <==> |s| >= 2 && s[0] == Num(StorageVersion) && s[1].Num?
    ensures !r.1 ==> r.0 == l
    ensures r.1 ==> multiset(r.0.items) == multiset(ReadRecords(s[2..], s[1].n))
    ensures r.1 ==> Appointments.Chronological(r.0.items)
    ensures r.1 ==> r.0.capacity == ReservedCapacity(l.capacity, s[1].n)
    ensures l.Valid() ==> r.0.Valid()
  {
    Appointments.StartsNoLaterIsTotalPreorder();
    var r := Load(Appointments.StartsNoLater, l, s);
    Appointments.ChronologicalIsSorted(r.0.items);
    r
  }

  /** Saving and loading a chronological list with distinct start times gives
      it back unchanged. */
  lemma AppointmentsRoundTrip(l: Appointments.AppointmentList, saved: Appointments.AppointmentList)
    requires StrictlySortedBy(Appointments.StartsNoLater, saved.items)
    ensures LoadAppointments(l, SaveAppointments(saved)).1
    ensures LoadAppointments(l, SaveAppointments(saved)).0.items == saved.items
  {
    Appointments.StartsNoLaterIsTotalPreorder();
    LoadSavedExactly(Appointments.StartsNoLater, l, saved.items);
  }

  function SaveTodos(l: Todos.TodoList): (s: seq<Token<Todos.TodoItem>>)
    ensures |s| == |l.items| + 2
    ensures s[0] == Num(StorageVersion) && s[1] == Num(|l.items|)
    ensures forall i | 0 <= i < |l.items| :: s[i + 2] == Rec(l.items[i])
  {
    Save(l.items)
  }

  function LoadTodos(l: Todos.TodoList, s: seq<Token<Todos.TodoItem>>): (r: (Todos.TodoList, bool))
    ensures r.1 <==> |s| >= 2 && s[0] == Num(StorageVersion) && s[1].Num?
    ensures !r.1 ==> r.0 == l
    ensures r.1 ==> multiset(r.0.items) == multiset(ReadRecords(s[2..], s[1].n))
    ensures r.1 ==> Todos.InTodoOrder(r.0.items)
    ensures r.1 ==> r.0.capacity == ReservedCapacity(l.capacity, s[1].n)
    ensures l.Valid() ==> r.0.Valid()
  {
    Todos.RanksNoLaterIsTotalPreorder();
    var r := Load(Todos.RanksNoLater, l, s);
    Todos.InTodoOrderIsSorted(r.0.items);
    r
  }

  /** Saving and loading to-dos brings back the same items in to-do order;
      when no two items tie on completion and priority, exactly as saved. */
  lemma TodosRoundTrip(l: Todos.TodoList, saved: Todos.TodoList)
    ensures LoadTodos(l, SaveTodos(saved)).1
    ensures multiset(LoadTodos(l, SaveTodos(saved)).0.items) == multiset(saved.items)
    ensures StrictlySortedBy(Todos.RanksNoLater, saved.items) ==>
      LoadTodos(l, SaveTodos(saved)).0.items == saved.items
  {
    Todos.RanksNoLaterIsTotalPreorder();
    LoadSaved(Todos.RanksNoLater, l, saved.items);
    if StrictlySortedBy(Todos.RanksNoLater, saved.items) {
      LoadSavedExactly(Todos.RanksNoLater, l, saved.items);
    }
  }
}
