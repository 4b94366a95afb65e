/** Gregorian calendar arithmetic on plain (year, month, day) records.

    Nothing here validates its input: a `Date` may hold any integers, exactly as
    the C structs do. Where a routine indexes the month-length table it needs a
    month in 1..12, and that is its only precondition. */
module Calendar {
  import opened CArith

  datatype Date = Date(year: int, month: int, day: int)

  datatype DateTime = DateTime(year: int, month: int, day: int, hour: int, minute: int)
  {
    /** The calendar-day part, ignoring the time of day. */
    function DatePart(): Date {
      Date(year, month, day)
    }
  }

  predicate ValidMonth(month: int) {
    1 <= month <= 12
  }

  /** A real calendar day: month in 1..12 and day within that month's length. */
  predicate ValidDate(d: Date) {
    ValidMonth(d.month) && 1 <= d.day <= DaysInMonth(d.year, d.month)
  }

  // ---------------------------------------------------------------------------
  // Leap years and month lengths

  /** The Gregorian rule. Divisibility tests do not depend on the sign
      convention of `%`, so Dafny's remainder gives the same answers as C's
      here. */
  predicate IsLeapYear(year: int): (leap: bool)
    ensures year % 4 != 0 ==> !leap
    ensures year % 4 == 0 && year % 100 != 0 ==> leap
    ensures year % 100 == 0 ==> (leap <==> year % 400 == 0)
  {
    (year % 4 == 0 && year % 100 != 0) || year % 400 == 0
  }

  /** The rule repeats every 400 years, and 2000 and 2024 are leap years
      while 1900 and 2023 are not. */
  lemma LeapYearCycle(year: int)
    ensures IsLeapYear(year + 400) <==> IsLeapYear(year)
    ensures IsLeapYear(2000) && IsLeapYear(2024) && !IsLeapYear(1900) && !IsLeapYear(2023)
  {
  }

  function DaysInMonth(year: int, month: int): (n: int)
    requires ValidMonth(month)
    ensures 28 <= n <= 31
    ensures month == 2 ==> (n == 29 <==> IsLeapYear(year))
    ensures month == 2 ==> (n == 28 <==> !IsLeapYear(year))
    ensures month != 2 ==> (n == 30 <==> month in {4, 6, 9, 11})
    ensures month != 2 ==> (n == 31 <==> month in {1, 3, 5, 7, 8, 10, 12})
  {
    if month == 2 && IsLeapYear(year) then 29
    else [31, 28, 31, 30, 31, 30, 31, 31, 30, 31, 30, 31][month - 1]
  }

  /** Days in months 1..m of `year`. */
  function DaysBeforeMonthEnd(year: int, m: int): int
    requires 0 <= m <= 12
  {
    if m == 0 then 0 else DaysBeforeMonthEnd(year, m - 1) + DaysInMonth(year, m)
  }

  /** The twelve month lengths add up to 366 in a leap year and 365 otherwise. */
  lemma YearLength(year: int)
    ensures DaysBeforeMonthEnd(year, 12) == if IsLeapYear(year) then 366 else 365
  {
    var feb := DaysInMonth(year, 2);
    assert DaysBeforeMonthEnd(year, 1) == 31;
    assert DaysBeforeMonthEnd(year, 2) == 31 + feb;
    assert DaysBeforeMonthEnd(year, 3) == 62 + feb;
    assert DaysBeforeMonthEnd(year, 4) == 92 + feb;
    assert DaysBeforeMonthEnd(year, 5) == 123 + feb;
    assert DaysBeforeMonthEnd(year, 6) == 153 + feb;
    assert DaysBeforeMonthEnd(year, 7) == 184 + feb;
    assert DaysBeforeMonthEnd(year, 8) == 215 + feb;
    assert DaysBeforeMonthEnd(year, 9) == 245 + feb;
    assert DaysBeforeMonthEnd(year, 10) == 276 + feb;
    assert DaysBeforeMonthEnd(year, 11) == 306 + feb;
  }

  // ---------------------------------------------------------------------------
  // Names

  const MonthNames: seq<string> := ["January", "February", "March", "April", "May", "June",
    "July", "August", "September", "October", "November", "December"]

  const DayNames: seq<string> := ["Sunday", "Monday", "Tuesday", "Wednesday", "Thursday", "Friday", "Saturday"]

  function MonthName(month: int): (name: string)
    ensures name == "Invalid" <==> !ValidMonth(month)
    ensures ValidMonth(month) ==> name == MonthNames[month - 1]
  {
    if 1 <= month <= 12 then MonthNames[month - 1] else "Invalid"
  }

  /** Day numbers follow `DayOfWeek`: 0 is Sunday, 6 is Saturday. */
  function DayName(dayOfWeek: int): (name: string)
    ensures name == "Invalid" <==> !(0 <= dayOfWeek <= 6)
    ensures 0 <= dayOfWeek <= 6 ==> name == DayNames[dayOfWeek]
  {
    if 0 <= dayOfWeek <= 6 then DayNames[dayOfWeek] else "Invalid"
  }

  // ---------------------------------------------------------------------------
  // Day of week

  /** Zeller's congruence with C's truncating `/` and `%`. January and February
      count as months 13 and 14 of the previous year; Zeller's Saturday-first
      numbering is shifted so that Sunday is 0. The result is in 0..6 for every
      input, since C's remainder keeps `h` within -6..6. */
  function DayOfWeek(year: int, month: int, day: int): (w: int)
    ensures 0 <= w <= 6
  {
    var h := Rem(ZellerTotal(year, month, day), 7);
    // `h` is at least -6, so C's `%` on `h + 6` is the Euclidean one.
    (h + 6) % 7
  }

  /** The sum that Zeller's congruence reduces modulo 7, evaluated with C's
      truncating division; it may be negative for years before 1. */
  function ZellerTotal(year: int, month: int, day: int): int {
    var m := if month < 3 then month + 12 else month;
    var y := if month < 3 then year - 1 else year;
    var k := Rem(y, 100);
    var j := Quot(y, 100);
    day + Quot(13 * (m + 1), 5) + k + Quot(k, 4) + Quot(j, 4) + 5 * j
  }

  /** Whatever its sign, the total reduces to the weekday as a Euclidean
      remainder would: C's remainder is congruent to the total modulo 7. */
  lemma DayOfWeekByTotal(year: int, month: int, day: int)
    ensures DayOfWeek(year, month, day) == (ZellerTotal(year, month, day) + 6) % 7
  {
    RemCongruent(ZellerTotal(year, month, day), 7, 6);
  }

  function FirstDayOfMonth(year: int, month: int): (w: int)
    ensures 0 <= w <= 6
    ensures w == DayOfWeek(year, month, 1)
  {
    DayOfWeek(year, month, 1)
  }

  /** The weekday of a `Date` record. */
  function Weekday(d: Date): int {
    DayOfWeek(d.year, d.month, d.day)
  }

  /** Two fixed points of the Gregorian calendar: 1 January 2000 was a Saturday
      and 1 January 2025 a Wednesday. */
  lemma KnownWeekdays()
    ensures DayName(DayOfWeek(2000, 1, 1)) == "Saturday"
    ensures DayName(DayOfWeek(2025, 1, 1)) == "Wednesday"
    ensures DayName(DayOfWeek(2024, 2, 29)) == "Thursday"
  {
  }

  /** The year-dependent part of Zeller's sum, for a non-negative (shifted)
      year, where C's and Dafny's division agree. */
  function ZellerYearTerm(y: int): int
    requires y >= 0
  {
    y % 100 + (y % 100) / 4 + (y / 100) / 4 + 5 * (y / 100)
  }

  /** Zeller's month term `13 * (m + 1) / 5` for months 1..12, where January
      and February are taken as months 13 and 14. */
  function ZellerMonthTerm(month: int): int
    requires ValidMonth(month)
  {
    [36, 39, 10, 13, 15, 18, 20, 23, 26, 28, 31, 33][month - 1]
  }

  lemma ZellerMonthTermValue(month: int)
    requires ValidMonth(month)
    ensures var m := if month < 3 then month + 12 else month;
      13 * (m + 1) / 5 == ZellerMonthTerm(month)
  {
    if month == 1 {} else if month == 2 {} else if month == 3 {} else if month == 4 {}
    else if month == 5 {} else if month == 6 {} else if month == 7 {} else if month == 8 {}
    else if month == 9 {} else if month == 10 {} else if month == 11 {} else {}
  }

  /** Zeller's sum before it is reduced modulo 7, for years from 1 on. */
  function ZellerSum(year: int, month: int, day: int): int
    requires year >= 1 && ValidMonth(month)
  {
    day + ZellerMonthTerm(month) + ZellerYearTerm(if month < 3 then year - 1 else year)
  }

  lemma DayOfWeekBySum(year: int, month: int, day: int)
    requires year >= 1 && ValidMonth(month) && day >= 1
    ensures DayOfWeek(year, month, day) == (ZellerSum(year, month, day) + 6) % 7
  {
    DayOfWeekByTotal(year, month, day);
    TotalIsSum(year, month, day);
  }

  /** From year 1 on every division in the C total has a non-negative
      dividend, so the total is the Euclidean Zeller sum. */
  lemma TotalIsSum(year: int, month: int, day: int)
    requires year >= 1 && ValidMonth(month)
    ensures ZellerTotal(year, month, day) == ZellerSum(year, month, day)
  {
    var m := if month < 3 then month + 12 else month;
    var y := if month < 3 then year - 1 else year;
    var k := Rem(y, 100);
    var j := Quot(y, 100);
    assert k == y % 100 && j == y / 100;
    assert Quot(k, 4) == k / 4 && Quot(j, 4) == j / 4;
    ZellerMonthTermValue(month);
  }

  /** Moving to the next year advances the year term by one weekday, or by two
      when the new year is a leap year (its 29 February lies in between, since
      January and February belong to the previous Zeller year). */
  lemma ZellerYearStep(y: int)
    requires y >= 0
    ensures (ZellerYearTerm(y + 1) - ZellerYearTerm(y)) % 7 == if IsLeapYear(y + 1) then 2 else 1
  {
    var k := y % 100;
    var j := y / 100;
    if k < 99 {
      YearWithinCentury(y, j, k);
    } else {
      YearAtCentury(y, j);
    }
  }

  lemma YearWithinCentury(y: int, j: int, k: int)
    requires y >= 0 && j == y / 100 && k == y % 100 && k < 99
    ensures (ZellerYearTerm(y + 1) - ZellerYearTerm(y)) % 7 == if IsLeapYear(y + 1) then 2 else 1
  {
    DivisionUnique(y + 1, 100, j, k + 1);
    DivisionUnique(y + 1, 4, 25 * j + (k + 1) / 4, (k + 1) % 4);
    assert IsLeapYear(y + 1) <==> (k + 1) % 4 == 0;
    assert ZellerYearTerm(y + 1) - ZellerYearTerm(y) == 1 + (k + 1) / 4 - k / 4;
    assert (k + 1) / 4 - k / 4 == if (k + 1) % 4 == 0 then 1 else 0;
  }

  lemma YearAtCentury(y: int, j: int)
    requires y >= 0 && j == y / 100 && y % 100 == 99
    ensures (ZellerYearTerm(y + 1) - ZellerYearTerm(y)) % 7 == if IsLeapYear(y + 1) then 2 else 1
  {
    DivisionUnique(y + 1, 100, j + 1, 0);
    assert ZellerYearTerm(y + 1) - ZellerYearTerm(y) == (j + 1) / 4 - j / 4 - 118;
    CenturyLeap(j + 1);
    assert (j + 1) / 4 - j / 4 == if (j + 1) % 4 == 0 then 1 else 0;
  }

  /** A century year is a leap year exactly when its century number is a multiple of 4. */
  lemma CenturyLeap(c: int)
    requires c >= 1
    ensures IsLeapYear(100 * c) <==> c % 4 == 0
  {
    DivisionUnique(100 * c, 100, c, 0);
    DivisionUnique(100 * c, 400, c / 4, 100 * (c % 4));
  }

  lemma WeekdayShift(a: int, b: int, k: int)
    requires (b - a - k) % 7 == 0
    ensures (b + 6) % 7 == ((a + 6) % 7 + k) % 7
  {
  }

  /** The Zeller sum of `e` exceeds that of `d` by `k`, modulo 7. */
  predicate ZellerApart(d: Date, e: Date, k: int)
    requires d.year >= 1 && ValidMonth(d.month) && e.year >= 1 && ValidMonth(e.month)
  {
    (ZellerSum(e.year, e.month, e.day) - ZellerSum(d.year, d.month, d.day) - k) % 7 == 0
  }

  /** The Zeller sums of a day and the next differ by one modulo 7. */
  lemma ZellerSumNext(d: Date)
    requires ValidDate(d) && d.year >= 1
    ensures NextDay(d).year >= 1 && ZellerApart(d, NextDay(d), 1)
  {
    var dim := DaysInMonth(d.year, d.month);
    var n := NextDay(d);
    if d.day < dim {
      assert n == Date(d.year, d.month, d.day + 1);
      ZellerSumWithinMonth(d.year, d.month, d.day);
    } else if d.month == 2 {
      assert n == Date(d.year, 3, 1);
      ZellerSumEndOfFebruary(d.year, d.day);
    } else if d.month == 12 {
      assert n == Date(d.year + 1, 1, 1) && d.day == 31;
      ZellerSumEndOfYear(d.year);
    } else {
      assert n == Date(d.year, d.month + 1, 1);
      ZellerSumEndOfMonth(d.year, d.month, d.day);
    }
  }

  lemma ZellerSumWithinMonth(year: int, month: int, day: int)
    requires year >= 1 && ValidMonth(month)
    ensures ZellerApart(Date(year, month, day), Date(year, month, day + 1), 1)
  {
    assert ZellerSum(year, month, day + 1) == ZellerSum(year, month, day) + 1;
  }

  /** From 31 December to 1 January the Zeller year stays the same, since
      January counts as month 13 of the previous year. */
  lemma ZellerSumEndOfYear(year: int)
    requires year >= 1
    ensures ZellerApart(Date(year, 12, 31), Date(year + 1, 1, 1), 1)
  {
    assert ZellerSum(year + 1, 1, 1) == 1 + 36 + ZellerYearTerm(year);
    assert ZellerSum(year, 12, 31) == 31 + 33 + ZellerYearTerm(year);
  }

  /** From the end of February to 1 March the Zeller year changes. */
  lemma ZellerSumEndOfFebruary(year: int, day: int)
    requires year >= 1 && day == DaysInMonth(year, 2)
    ensures ZellerApart(Date(year, 2, day), Date(year, 3, 1), 1)
  {
    ZellerYearStep(year - 1);
    var t0 := ZellerYearTerm(year - 1);
    var t1 := ZellerYearTerm(year);
    assert ZellerSum(year, 3, 1) == 1 + 10 + t1;
    assert ZellerSum(year, 2, day) == day + 39 + t0;
    var leap := if IsLeapYear(year) then 2 else 1;
    assert day == 27 + leap;
    ShiftByMultipleOfSeven(t1 - t0, leap);
  }

  lemma ShiftByMultipleOfSeven(x: int, r: int)
    requires x % 7 == r
    ensures (x - r - 56) % 7 == 0
  {
  }

  /** Every other month end stays inside one Zeller year, and each month term
      step matches the month's length modulo 7. */
  lemma ZellerSumEndOfMonth(year: int, month: int, day: int)
    requires year >= 1 && ValidMonth(month) && month != 2 && month != 12
    requires day == DaysInMonth(year, month)
    ensures ZellerApart(Date(year, month, day), Date(year, month + 1, 1), 1)
  {
    var t := ZellerYearTerm(if month < 3 then year - 1 else year);
    assert ZellerSum(year, month + 1, 1) == 1 + ZellerMonthTerm(month + 1) + t;
    assert ZellerSum(year, month, day) == day + ZellerMonthTerm(month) + t;
    assert ZellerMonthTerm(month + 1) - ZellerMonthTerm(month) - day == -28 by {
      if month == 1 {} else if month == 3 {} else if month == 4 {} else if month == 5 {}
      else if month == 6 {} else if month == 7 {} else if month == 8 {} else if month == 9 {}
      else if month == 10 {} else {}
    }
  }

  /** The weekday advances by exactly one from each day to the next. */
  lemma DayOfWeekNext(d: Date)
    requires ValidDate(d) && d.year >= 1
    ensures Weekday(NextDay(d)) == (Weekday(d) + 1) % 7
  {
    ZellerSumNext(d);
    WeekdaysApart(d, NextDay(d), 1);
  }

  /** Two real dates whose Zeller sums differ by `k` modulo 7 have weekdays
      `k` apart. */
  lemma WeekdaysApart(d: Date, e: Date, k: int)
    requires ValidDate(d) && d.year >= 1 && ValidDate(e) && e.year >= 1
    requires ZellerApart(d, e, k)
    ensures Weekday(e) == (Weekday(d) + k) % 7
  {
    var a, b := ZellerSum(d.year, d.month, d.day), ZellerSum(e.year, e.month, e.day);
    assert (b + 6) % 7 == ((a + 6) % 7 + k) % 7 by {
      WeekdayShift(a, b, k);
    }
    DayOfWeekBySum(d.year, d.month, d.day);
    DayOfWeekBySum(e.year, e.month, e.day);
  }

  /** `n` days later the weekday has advanced by `n` modulo 7. */
  lemma DayOfWeekAdvance(d: Date, n: int)
    requires ValidDate(d) && d.year >= 1 && n >= 0
    ensures Weekday(AddDays(d, n)) == (Weekday(d) + n) % 7
  {
    ZellerSumAdvance(d, n);
    WeekdaysApart(d, AddDays(d, n), n);
  }

  /** Over `n` days the Zeller sum advances by `n` modulo 7. */
  lemma {:induction false} ZellerSumAdvance(d: Date, n: int)
    requires ValidDate(d) && d.year >= 1 && n >= 0
    ensures AddDays(d, n).year >= 1 && ZellerApart(d, AddDays(d, n), n)
    decreases n
  {
    if n > 0 {
      var e := NextDay(d);
      ZellerSumNext(d);
      ZellerSumAdvance(e, n - 1);
      assert AddDays(d, n) == AddDays(e, n - 1);
      ApartCompose(d, e, AddDays(e, n - 1), 1, n - 1);
    }
  }

  lemma ApartCompose(a: Date, b: Date, c: Date, i: int, j: int)
    requires a.year >= 1 && ValidMonth(a.month) && b.year >= 1 && ValidMonth(b.month)
    requires c.year >= 1 && ValidMonth(c.month)
    requires ZellerApart(a, b, i) && ZellerApart(b, c, j)
    ensures ZellerApart(a, c, i + j)
  {
  }

  /** Day `day` of a month falls `day - 1` weekdays after the month's first day. */
  lemma FirstDayOffset(year: int, month: int, day: int)
    ensures DayOfWeek(year, month, day) == (FirstDayOfMonth(year, month) + day - 1) % 7
  {
    DayOfWeekByTotal(year, month, day);
    DayOfWeekByTotal(year, month, 1);
    TotalByDay(year, month, day);
    WeekdayOffset(ZellerTotal(year, month, 1), day - 1);
  }

  /** Within a month the total grows with the day and nothing else. */
  lemma TotalByDay(year: int, month: int, day: int)
    ensures ZellerTotal(year, month, day) == ZellerTotal(year, month, 1) + day - 1
  {
  }

  lemma WeekdayOffset(t: int, n: int)
    ensures (t + n + 6) % 7 == ((t + 6) % 7 + n) % 7
  {
  }

  // ---------------------------------------------------------------------------
  // Comparison

  /** Strictly earlier, lexicographically on (year, month, day). */
  predicate DateBefore(a: Date, b: Date) {
    || a.year < b.year
    || (a.year == b.year && a.month < b.month)
    || (a.year == b.year && a.month == b.month && a.day < b.day)
  }

  /** Strictly earlier, lexicographically on (year, month, day, hour, minute). */
  predicate DateTimeBefore(a: DateTime, b: DateTime) {
    || DateBefore(a.DatePart(), b.DatePart())
    || (a.DatePart() == b.DatePart() && a.hour < b.hour)
    || (a.DatePart() == b.DatePart() && a.hour == b.hour && a.minute < b.minute)
  }

  /** Negative, zero or positive as `a` is before, equal to or after `b`. */
  function CompareDates(a: Date, b: Date): (r: int)
    ensures r == 0 <==> a == b
    ensures r < 0 <==> DateBefore(a, b)
    ensures r > 0 <==> DateBefore(b, a)
  {
    if a.year != b.year then a.year - b.year
    else if a.month != b.month then a.month - b.month
    else a.day - b.day
  }

  /** Negative, zero or positive as `a` is before, equal to or after `b`. */
  function CompareDateTimes(a: DateTime, b: DateTime): (r: int)
    ensures r == 0 <==> a == b
    ensures r < 0 <==> DateTimeBefore(a, b)
    ensures r > 0 <==> DateTimeBefore(b, a)
  {
    if a.year != b.year then a.year - b.year
    else if a.month != b.month then a.month - b.month
    else if a.day != b.day then a.day - b.day
    else if a.hour != b.hour then a.hour - b.hour
    else a.minute - b.minute
  }

  /** Swapping the arguments flips the sign of both comparisons. */
  lemma CompareAntisymmetric(a: Date, b: Date, s: DateTime, t: DateTime)
    ensures CompareDates(a, b) < 0 <==> CompareDates(b, a) > 0
    ensures CompareDates(a, b) == 0 <==> CompareDates(b, a) == 0
    ensures CompareDateTimes(s, t) < 0 <==> CompareDateTimes(t, s) > 0
    ensures CompareDateTimes(s, t) == 0 <==> CompareDateTimes(t, s) == 0
  {
  }

  /** `DateTimeBefore` is a strict order, so `CompareDateTimes(a, b) <= 0` is a total preorder. */
  lemma DateTimeBeforeTransitive(a: DateTime, b: DateTime, c: DateTime)
    ensures DateTimeBefore(a, b) && DateTimeBefore(b, c) ==> DateTimeBefore(a, c)
    ensures !DateTimeBefore(a, a)
  {
  }

  // ---------------------------------------------------------------------------
  // Stepping by days

  /** One step of the forward loop of `add_days_to_date`. */
  function NextDay(d: Date): (r: Date)
    requires ValidMonth(d.month)
    ensures ValidMonth(r.month)
    ensures DateBefore(d, r)
    ensures ValidDate(d) ==> ValidDate(r)
  {
    if d.day + 1 > DaysInMonth(d.year, d.month) then
      if d.month + 1 > 12 then Date(d.year + 1, 1, 1) else Date(d.year, d.month + 1, 1)
    else
      Date(d.year, d.month, d.day + 1)
  }

  /** One step of the backward loop of `add_days_to_date`. The month table is
      read only when the day drops below 1, and then only after the month has
      been decremented and wrapped; the model asks for a valid month on every
      step all the same. */
  function PrevDay(d: Date): (r: Date)
    requires ValidMonth(d.month)
    ensures ValidMonth(r.month)
    ensures DateBefore(r, d)
    ensures ValidDate(d) ==> ValidDate(r)
  {
    if d.day - 1 < 1 then
      if d.month - 1 < 1 then Date(d.year - 1, 12, DaysInMonth(d.year - 1, 12))
      else Date(d.year, d.month - 1, DaysInMonth(d.year, d.month - 1))
    else
      Date(d.year, d.month, d.day - 1)
  }

  lemma StepsInverse(d: Date)
    requires ValidDate(d)
    ensures PrevDay(NextDay(d)) == d
    ensures NextDay(PrevDay(d)) == d
  {
  }

  /** `add_days_to_date`: `n` single-day steps, forward for positive `n` and
      backward for negative `n`. Every forward step looks up the length of the
      current month; a backward step reads the table only on leaving a month.
      The model asks for a valid month whenever a step is taken. */
  function AddDays(d: Date, n: int): (r: Date)
    requires n == 0 || ValidMonth(d.month)
    ensures ValidMonth(d.month) ==> ValidMonth(r.month)
    ensures ValidDate(d) ==> ValidDate(r)
    ensures n == 0 ==> r == d
    ensures n > 0 ==> DateBefore(d, r)
    ensures n < 0 ==> DateBefore(r, d)
    decreases if n >= 0 then n else -n
  {
    if n > 0 then AddDays(NextDay(d), n - 1)
    else if n < 0 then AddDays(PrevDay(d), n + 1)
    else d
  }

  lemma {:induction false} AddDaysForwardLast(d: Date, n: int)
    requires ValidMonth(d.month) && n >= 0
    ensures AddDays(d, n + 1) == NextDay(AddDays(d, n))
    decreases n
  {
    if n > 0 {
      AddDaysForwardLast(NextDay(d), n - 1);
    }
  }

  lemma {:induction false} AddDaysBackwardLast(d: Date, n: int)
    requires ValidMonth(d.month) && n <= 0
    ensures AddDays(d, n - 1) == PrevDay(AddDays(d, n))
    decreases -n
  {
    if n < 0 {
      AddDaysBackwardLast(PrevDay(d), n + 1);
    }
  }

  /** Adding `n` days and then `-n` days gives back a valid date unchanged. */
  lemma {:induction false} AddDaysInverse(d: Date, n: int)
    requires ValidDate(d)
    ensures AddDays(AddDays(d, n), -n) == d
    decreases if n >= 0 then n else -n
  {
    if n > 0 {
      var e := AddDays(d, n - 1);
      AddDaysForwardLast(d, n - 1);
      StepsInverse(e);
      AddDaysInverse(d, n - 1);
    } else if n < 0 {
      var e := AddDays(d, n + 1);
      AddDaysBackwardLast(d, n + 1);
      StepsInverse(e);
      AddDaysInverse(d, n + 1);
    }
  }

  /** Steps of the same direction compose. */
  lemma {:induction false} AddDaysCompose(d: Date, a: int, b: int)
    requires ValidMonth(d.month)
    requires (a >= 0 && b >= 0) || (a <= 0 && b <= 0)
    ensures AddDays(d, a + b) == AddDays(AddDays(d, a), b)
    decreases if a >= 0 then a else -a
  {
    if a > 0 {
      AddDaysCompose(NextDay(d), a - 1, b);
    } else if a < 0 {
      AddDaysCompose(PrevDay(d), a + 1, b);
    }
  }

  /** Within one month, adding days just adds to the day field. */
  lemma {:induction false} AddDaysWithinMonth(d: Date, n: int)
    requires ValidDate(d)
    requires 1 <= d.day + n <= DaysInMonth(d.year, d.month)
    ensures AddDays(d, n) == Date(d.year, d.month, d.day + n)
    decreases if n >= 0 then n else -n
  {
    if n > 0 {
      AddDaysWithinMonth(NextDay(d), n - 1);
    } else if n < 0 {
      AddDaysWithinMonth(PrevDay(d), n + 1);
    }
  }

  // ---------------------------------------------------------------------------
  // Stepping by months

  /** The two normalising loops of `add_months_to_date`: while the month is
      above 12 take 12 off and add a year; while it is below 1 add 12 and take a
      year off. The year/month pair keeps its month count `12 * year + month`. */
  function WrapMonth(year: int, month: int): (r: (int, int))
    ensures ValidMonth(r.1)
    ensures 12 * r.0 + r.1 == 12 * year + month
    decreases if month > 12 then month else if month < 1 then 1 - month else 0
  {
    if month > 12 then WrapMonth(year + 1, month - 12)
    else if month < 1 then WrapMonth(year - 1, month + 12)
    else (year, month)
  }

  /** `add_months_to_date`: move by `n` months, then clamp the day to the target
      month's length. Any starting month is accepted, since the loops bring it
      into range before the table is consulted. */
  function AddMonths(d: Date, n: int): (r: Date)
    ensures ValidMonth(r.month)
    ensures 12 * r.year + r.month == 12 * d.year + d.month + n
    ensures r.day <= DaysInMonth(r.year, r.month)
    ensures d.day <= DaysInMonth(r.year, r.month) ==> r.day == d.day
    ensures d.day > DaysInMonth(r.year, r.month) ==> r.day == DaysInMonth(r.year, r.month)
    ensures d.day >= 1 ==> ValidDate(r)
  {
    var (y, m) := WrapMonth(d.year, d.month + n);
    var maxDays := DaysInMonth(y, m);
    Date(y, m, if d.day > maxDays then maxDays else d.day)
  }

  lemma MonthCountUnique(y1: int, m1: int, y2: int, m2: int)
    requires ValidMonth(m1) && ValidMonth(m2)
    requires 12 * y1 + m1 == 12 * y2 + m2
    ensures y1 == y2 && m1 == m2
  {
  }

  /** Going `n` months and back returns the date, unless the first move had to clamp the day. */
  lemma AddMonthsInverse(d: Date, n: int)
    requires ValidDate(d)
    requires d.day <= DaysInMonth(AddMonths(d, n).year, AddMonths(d, n).month)
    ensures AddMonths(AddMonths(d, n), -n) == d
  {
    var e := AddMonths(d, n);
    var f := AddMonths(e, -n);
    MonthCountUnique(f.year, f.month, d.year, d.month);
  }
}
