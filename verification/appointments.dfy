/** The appointment store: a list kept in chronological order of start time,
    and the query that finds the appointments whose span covers a given day. */
module Appointments {
  import opened Calendar
  import opened Sorting
  import opened Lists

  /** An appointment starts at `start` and lasts `durationMinutes`; zero means
      a point in time. The description is free text. */
  datatype Appointment = Appointment(start: DateTime, description: string, durationMinutes: int)

  type AppointmentList = List<Appointment>

  const InitialCapacity: int := 100

  /** How many matches the display lookup asks for at most. */
  const MaxPerDay: int := 100

  // ---------------------------------------------------------------------------
  // Order

  /** The store's comparator: by start time only. */
  predicate StartsNoLater(a: Appointment, b: Appointment) {
    CompareDateTimes(a.start, b.start) <= 0
  }

  /** Ascending by start time: no appointment starts after a later one. */
  predicate Chronological(s: seq<Appointment>) {
    forall i, j | 0 <= i < j < |s| :: CompareDateTimes(s[i].start, s[j].start) <= 0
  }

  lemma StartsNoLaterIsTotalPreorder()
    ensures TotalPreorder(StartsNoLater)
  {
    forall a: Appointment, b: Appointment, c: Appointment
      ensures StartsNoLater(a, b) || StartsNoLater(b, a)
      ensures StartsNoLater(a, b) && StartsNoLater(b, c) ==> StartsNoLater(a, c)
    {
      DateTimeBeforeTransitive(a.start, b.start, c.start);
    }
  }

  lemma ChronologicalIsSorted(s: seq<Appointment>)
    ensures Chronological(s) <==> SortedBy(StartsNoLater, s)
  {
  }

  // ---------------------------------------------------------------------------
  // Mutation

  function InitAppointments(): (l: AppointmentList)
    ensures l.items == [] && l.capacity == InitialCapacity
    ensures l.Valid()
  {
    List([], InitialCapacity)
  }

  function SortAppointments(s: seq<Appointment>): (r: seq<Appointment>)
    ensures multiset(r) == multiset(s)
    ensures Chronological(r)
  {
    StartsNoLaterIsTotalPreorder();
    Sort(StartsNoLater, s)
  }

  /** Inserts and re-sorts; the buffer doubles first if it is full. */
  function AddAppointment(l: AppointmentList, a: Appointment): (r: AppointmentList)
    ensures |r.items| == |l.items| + 1
    ensures multiset(r.items) == multiset(l.items) + multiset{a}
    ensures Chronological(r.items)
    ensures r.capacity == if |l.items| >= l.capacity then 2 * l.capacity else l.capacity
    ensures l.Valid() ==> r.Valid()
  {
    StartsNoLaterIsTotalPreorder();
    Add(StartsNoLater, l, a)
  }

  /** Bounds-checked compaction; a sorted list stays sorted, since nothing moves past anything. */
  method DeleteAppointment(l: AppointmentList, index: int) returns (r: AppointmentList, ok: bool)
    ensures ok <==> 0 <= index < |l.items|
    ensures !ok ==> r == l
    ensures ok ==> |r.items| == |l.items| - 1
    ensures ok ==> forall k :: 0 <= k < index ==> r.items[k] == l.items[k]
    ensures ok ==> forall k :: index <= k < |r.items| ==> r.items[k] == l.items[k + 1]
    ensures ok ==> multiset(r.items) == multiset(l.items) - multiset{l.items[index]}
    ensures Chronological(l.items) ==> Chronological(r.items)
    ensures l.Valid() ==> r.Valid()
  {
    r, ok := Delete(l, index);
    if ok {
      assert l.items == l.items[..index] + [l.items[index]] + l.items[index + 1..];
      if Chronological(l.items) {
        ChronologicalIsSorted(l.items);
        SortedRemove(StartsNoLater, l.items, index);
        ChronologicalIsSorted(r.items);
      }
    }
  }

  /** Bounds-checked overwrite followed by a re-sort. */
  function EditAppointment(l: AppointmentList, index: int, a: Appointment): (r: (AppointmentList, bool))
    ensures r.1 <==> 0 <= index < |l.items|
    ensures !r.1 ==> r.0 == l
    ensures r.1 ==> |r.0.items| == |l.items|
    ensures r.1 ==> multiset(r.0.items) == multiset(l.items) - multiset{l.items[index]} + multiset{a}
    ensures r.1 ==> Chronological(r.0.items)
    ensures r.0.capacity == l.capacity
  {
    StartsNoLaterIsTotalPreorder();
    Edit(StartsNoLater, l, index, a)
  }

  // ---------------------------------------------------------------------------
  // End of an appointment

  /** The first carry loop: whole hours move out of the minute field. */
  function CarryMinutes(t: DateTime): (r: DateTime)
    ensures r.DatePart() == t.DatePart()
    ensures r.hour * 60 + r.minute == t.hour * 60 + t.minute
    ensures t.minute >= 0 ==> 0 <= r.minute < 60
    ensures t.minute < 60 ==> r == t
    decreases t.minute
  {
    if t.minute >= 60 then CarryMinutes(t.(hour := t.hour + 1, minute := t.minute - 60)) else t
  }

  /** The second carry loop: whole days move out of the hour field, and a day
      past the month's end moves into the next month (and year). On a real
      date each carry is exactly one `NextDay` step. */
  function CarryHours(t: DateTime): (r: DateTime)
    requires t.hour >= 24 ==> ValidMonth(t.month)
    ensures r.minute == t.minute
    ensures t.hour < 24 ==> r == t
    ensures ValidMonth(t.month) ==> ValidMonth(r.month)
    ensures ValidDate(t.DatePart()) && t.hour >= 0 ==>
      r.DatePart() == AddDays(t.DatePart(), t.hour / 24) && r.hour == t.hour % 24
    decreases t.hour
  {
    if t.hour >= 24 then
      var dim := DaysInMonth(t.year, t.month);
      var day := t.day + 1;
      var next :=
        if day > dim then
          if t.month + 1 > 12 then DateTime(t.year + 1, 1, day - dim, t.hour - 24, t.minute)
          else DateTime(t.year, t.month + 1, day - dim, t.hour - 24, t.minute)
        else DateTime(t.year, t.month, day, t.hour - 24, t.minute);
      assert ValidDate(t.DatePart()) ==> next.DatePart() == NextDay(t.DatePart());
      assert (t.hour - 24) / 24 == t.hour / 24 - 1 && (t.hour - 24) % 24 == t.hour % 24;
      CarryHours(next)
    else t
  }

  lemma MinutesOfDay(h: int, m: int)
    requires h >= 0 && 0 <= m < 60
    ensures (h * 60 + m) / 1440 == h / 24
    ensures (h * 60 + m) % 1440 == (h % 24) * 60 + m
  {
    var q := h / 24;
    var r := h % 24;
    assert h * 60 + m == 1440 * q + (r * 60 + m);
    assert 0 <= r * 60 + m < 1440;
  }

  /** The start plus the duration with whole hours carried out of the minutes. */
  function CarriedStart(a: Appointment): (t: DateTime)
    ensures t.DatePart() == a.start.DatePart()
    ensures t.hour * 60 + t.minute == a.start.hour * 60 + a.start.minute + a.durationMinutes
  {
    CarryMinutes(a.start.(minute := a.start.minute + a.durationMinutes))
  }

  /** The end can be computed: a month-length lookup happens only once the
      hours carry into days, and it needs a month in 1..12. */
  predicate EndComputable(a: Appointment) {
    CarriedStart(a).hour >= 24 ==> ValidMonth(a.start.month)
  }

  /** The end of an appointment: its start plus its duration, with minutes
      carried into hours, days, months and years. From a real start date and a
      non-negative minute count, the end lies `total / 1440` whole days later,
      where `total` counts minutes from the start day's midnight. */
  function EndTime(a: Appointment): (r: DateTime)
    requires EndComputable(a)
    ensures ValidMonth(a.start.month) ==> ValidMonth(r.month)
    ensures ValidDate(a.start.DatePart()) && a.start.hour >= 0 && a.start.minute + a.durationMinutes >= 0 ==>
      var total := a.start.hour * 60 + a.start.minute + a.durationMinutes;
      && r.DatePart() == AddDays(a.start.DatePart(), total / 1440)
      && r.hour * 60 + r.minute == total % 1440
      && 0 <= r.hour < 24 && 0 <= r.minute < 60
  {
    var c := CarriedStart(a);
    var r := CarryHours(c);
    if ValidDate(a.start.DatePart()) && a.start.hour >= 0 && a.start.minute + a.durationMinutes >= 0 then
      assert c.hour >= 0;
      MinutesOfDay(c.hour, c.minute);
      r
    else r
  }

  // ---------------------------------------------------------------------------
  // Queries

  /** Every appointment's end can be computed. */
  predicate EndsComputable(s: seq<Appointment>) {
    forall i | 0 <= i < |s| :: EndComputable(s[i])
  }

  /** The test of `find_appointments_by_date`: the query day lies between the
      start day and the end day, both inclusive, ignoring times of day. */
  predicate Matches(a: Appointment, q: Date)
    requires EndComputable(a)
  {
    CompareDates(q, a.start.DatePart()) >= 0 && CompareDates(q, EndTime(a).DatePart()) <= 0
  }

  /** For each appointment, whether it covers `q`. */
  function Hits(s: seq<Appointment>, q: Date): (h: seq<bool>)
    requires EndsComputable(s)
    ensures |h| == |s|
    ensures forall i | 0 <= i < |s| :: h[i] == Matches(s[i], q)
  {
    seq(|s|, i requires 0 <= i < |s| && EndComputable(s[i]) => Matches(s[i], q))
  }

  /** The positions below `n` where `h` holds, in ascending order. */
  function TrueIndicesBefore(h: seq<bool>, n: int): (r: seq<int>)
    requires 0 <= n <= |h|
    ensures forall k :: 0 <= k < |r| ==> 0 <= r[k] < n && h[r[k]]
    ensures forall k, m :: 0 <= k < m < |r| ==> r[k] < r[m]
    ensures forall i :: 0 <= i < n && h[i] ==> i in r
    decreases n
  {
    if n == 0 then []
    else TrueIndicesBefore(h, n - 1) + (if h[n - 1] then [n - 1] else [])
  }

  /** All indices of appointments covering `q`, in list order. */
  function MatchingIndices(s: seq<Appointment>, q: Date): seq<int>
    requires EndsComputable(s)
  {
    TrueIndicesBefore(Hits(s, q), |s|)
  }

  /** Scanning further only appends positions. */
  lemma {:induction false} TrueIndicesPrefix(h: seq<bool>, i: int, j: int)
    requires 0 <= i <= j <= |h|
    ensures TrueIndicesBefore(h, i) <= TrueIndicesBefore(h, j)
    decreases j
  {
    if i < j {
      TrueIndicesPrefix(h, i, j - 1);
    }
  }

  /** Where the scan stops, at the end or with `maxIndices` found, it holds
      the first `maxIndices` of all positions. */
  lemma StoppedScan(h: seq<bool>, i: int, indices: seq<int>, maxIndices: int)
    requires 0 <= i <= |h| && indices == TrueIndicesBefore(h, i)
    requires |indices| <= if maxIndices < 0 then 0 else maxIndices
    requires i == |h| || |indices| >= maxIndices
    ensures var all := TrueIndicesBefore(h, |h|);
      indices == all[..if maxIndices < 0 then 0 else if maxIndices < |all| then maxIndices else |all|]
  {
    TrueIndicesPrefix(h, i, |h|);
  }

  /** Reports, in list order, the indices of the appointments covering `q`,
      stopping once `maxIndices` have been found. */
  method FindAppointmentsByDate(l: AppointmentList, q: Date, maxIndices: int) returns (indices: seq<int>)
    requires EndsComputable(l.items)
    ensures var all := MatchingIndices(l.items, q);
      indices == all[..if maxIndices < 0 then 0 else if maxIndices < |all| then maxIndices else |all|]
    ensures |indices| <= if maxIndices < 0 then 0 else maxIndices
    ensures forall k :: 0 <= k < |indices| ==> 0 <= indices[k] < |l.items| && Matches(l.items[indices[k]], q)
    ensures forall k, m :: 0 <= k < m < |indices| ==> indices[k] < indices[m]
    ensures |indices| < maxIndices ==> forall i :: 0 <= i < |l.items| && Matches(l.items[i], q) ==> i in indices
  {
    indices := ScanMatches(l.items, q, maxIndices);
    FirstMatches(l.items, q, indices, maxIndices);
  }

  /** The scan itself: walks the list in order and stops once `maxIndices` matches are in hand. */
  method ScanMatches(s: seq<Appointment>, q: Date, maxIndices: int) returns (indices: seq<int>)
    requires EndsComputable(s)
    ensures var all := MatchingIndices(s, q);
      indices == all[..if maxIndices < 0 then 0 else if maxIndices < |all| then maxIndices else |all|]
  {
    ghost var hits := Hits(s, q);
    indices := [];
    var i := 0;
    while i < |s| && |indices| < maxIndices
      invariant 0 <= i <= |s|
      invariant indices == TrueIndicesBefore(hits, i)
      invariant |indices| <= if maxIndices < 0 then 0 else maxIndices
    {
      var covers := Matches(s[i], q);
      assert covers == hits[i];
      if covers {
        indices := indices + [i];
      }
      i := i + 1;
    }
    StoppedScan(hits, i, indices, maxIndices);
  }

  /** What a clipped prefix of the matching indices says about the list. */
  lemma FirstMatches(s: seq<Appointment>, q: Date, indices: seq<int>, maxIndices: int)
    requires EndsComputable(s)
    requires var all := MatchingIndices(s, q);
      indices == all[..if maxIndices < 0 then 0 else if maxIndices < |all| then maxIndices else |all|]
    ensures |indices| <= if maxIndices < 0 then 0 else maxIndices
    ensures forall k :: 0 <= k < |indices| ==> 0 <= indices[k] < |s| && Matches(s[indices[k]], q)
    ensures forall k, m :: 0 <= k < m < |indices| ==> indices[k] < indices[m]
    ensures |indices| < maxIndices ==> forall i :: 0 <= i < |s| && Matches(s[i], q) ==> i in indices
  {
    var all := MatchingIndices(s, q);
    assert forall k | 0 <= k < |indices| :: indices[k] == all[k];
  }

  /** Whether any appointment covers `q`. */
  method HasAppointmentOnDate(l: AppointmentList, q: Date) returns (b: bool)
    requires EndsComputable(l.items)
    ensures b <==> exists i :: 0 <= i < |l.items| && Matches(l.items[i], q)
  {
    var found := FindAppointmentsByDate(l, q, 1);
    b := |found| > 0;
    if b {
      assert Matches(l.items[found[0]], q);
    }
  }

  /** The list index of the `displayIndex`-th appointment covering `q`, or -1
      when there is no such match among the first `MaxPerDay`. */
  method GetAppointmentIndexForDisplay(l: AppointmentList, q: Date, displayIndex: int) returns (r: int)
    requires EndsComputable(l.items)
    ensures var all := MatchingIndices(l.items, q);
      r == if 0 <= displayIndex < |all| && displayIndex < MaxPerDay then all[displayIndex] else -1
    ensures r == -1 || (0 <= r < |l.items| && Matches(l.items[r], q))
  {
    var found := FindAppointmentsByDate(l, q, MaxPerDay);
    if 0 <= displayIndex < |found| {
      r := found[displayIndex];
    } else {
      r := -1;
    }
  }

  // ---------------------------------------------------------------------------
  // Spans

  /** A well-formed appointment: a real start date, a time of day on the clock,
      and a duration that does not run backwards. */
  predicate WellFormed(a: Appointment) {
    && ValidDate(a.start.DatePart())
    && 0 <= a.start.hour < 24 && 0 <= a.start.minute < 60
    && a.durationMinutes >= 0
  }

  /** A well-formed appointment covers exactly the days from its start day to
      the day its last minute falls on. */
  lemma SpanIsStartToEnd(a: Appointment, q: Date)
    requires WellFormed(a)
    ensures var last := AddDays(a.start.DatePart(), (a.start.hour * 60 + a.start.minute + a.durationMinutes) / 1440);
      Matches(a, q) <==> !DateBefore(q, a.start.DatePart()) && !DateBefore(last, q)
  {
  }

  /** An appointment without duration covers its start day and no other. */
  lemma ZeroDurationCoversStartDayOnly(a: Appointment, q: Date)
    requires WellFormed(a) && a.durationMinutes == 0
    ensures Matches(a, q) <==> q == a.start.DatePart()
  {
    var total := a.start.hour * 60 + a.start.minute;
    assert total / 1440 == 0;
  }

  /** An appointment from 30 January 2025 lasting three days covers 30 and 31
      January and 1 and 2 February, and neither 29 January nor 3 February. */
  lemma ThreeDaySpanAcrossMonths()
    ensures var a := Appointment(DateTime(2025, 1, 30, 0, 0), "trip", 4320);
      && Matches(a, Date(2025, 1, 30)) && Matches(a, Date(2025, 1, 31))
      && Matches(a, Date(2025, 2, 1)) && Matches(a, Date(2025, 2, 2))
      && !Matches(a, Date(2025, 1, 29)) && !Matches(a, Date(2025, 2, 3))
  {
    var a := Appointment(DateTime(2025, 1, 30, 0, 0), "trip", 4320);
    ThreeDaySpanEnd();
    assert EndTime(a).DatePart() == Date(2025, 2, 2);
  }

  lemma ThreeDaySpanEnd()
    ensures EndComputable(Appointment(DateTime(2025, 1, 30, 0, 0), "trip", 4320))
    ensures EndTime(Appointment(DateTime(2025, 1, 30, 0, 0), "trip", 4320)).DatePart() == Date(2025, 2, 2)
  {
    var a := Appointment(DateTime(2025, 1, 30, 0, 0), "trip", 4320);
    var d := Date(2025, 1, 30);
    assert AddDays(d, 3) == Date(2025, 2, 2) by {
      assert NextDay(d) == Date(2025, 1, 31);
      assert NextDay(Date(2025, 1, 31)) == Date(2025, 2, 1);
      assert NextDay(Date(2025, 2, 1)) == Date(2025, 2, 2);
      assert AddDays(Date(2025, 2, 2), 0) == Date(2025, 2, 2);
      assert AddDays(Date(2025, 2, 1), 1) == Date(2025, 2, 2);
      assert AddDays(Date(2025, 1, 31), 2) == Date(2025, 2, 2);
    }
    assert 4320 / 1440 == 3;
  }
}
