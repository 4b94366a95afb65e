/** Keyboard handling: the key-to-action mapping and the three view
    navigators. The calendar navigator steps the selected date itself; the
    lemmas here show it agrees with the calendar's own day and month
    arithmetic. */
module Input {
  import opened Calendar

  // ---------------------------------------------------------------------------
  // Key codes: extended keys arrive as their scan code plus 256.

  const KeyUp: int := 72 + 256
  const KeyDown: int := 80 + 256
  const KeyLeft: int := 75 + 256
  const KeyRight: int := 77 + 256
  const KeyPgUp: int := 73 + 256
  const KeyPgDn: int := 81 + 256
  const KeyHome: int := 71 + 256
  const KeyEnd: int := 79 + 256
  const KeyTab: int := 9
  const KeyEnter: int := 13
  const KeyEsc: int := 27
  const KeySpace: int := 32

  /** Either case of a letter key. */
  predicate IsLetterKey(key: int, lower: char, upper: char) {
    key == lower as int || key == upper as int
  }

  predicate IsQuitKey(key: int) { IsLetterKey(key, 'q', 'Q') }
  predicate IsHelpKey(key: int) { IsLetterKey(key, 'h', 'H') }
  predicate IsAddKey(key: int) { IsLetterKey(key, 'a', 'A') }
  predicate IsDeleteKey(key: int) { IsLetterKey(key, 'd', 'D') }
  predicate IsEditKey(key: int) { IsLetterKey(key, 'e', 'E') }

  // ---------------------------------------------------------------------------
  // State

  datatype View = CalendarView | AppointmentsView | TodoView

  /** The enumeration value of a view. */
  function ViewIndex(v: View): (i: int)
    ensures 0 <= i < 3
  {
    match v
    case CalendarView => 0
    case AppointmentsView => 1
    case TodoView => 2
  }

  /** TAB's cycle: the view whose enumeration value is one more, modulo 3. */
  function NextView(v: View): (w: View)
    ensures ViewIndex(w) == (ViewIndex(v) + 1) % 3
    ensures w != v
  {
    match v
    case CalendarView => AppointmentsView
    case AppointmentsView => TodoView
    case TodoView => CalendarView
  }

  lemma NextViewCycles(v: View)
    ensures NextView(NextView(NextView(v))) == v
    ensures ViewIndex(v) == ViewIndex(NextView(v)) - 1 || (v == TodoView && NextView(v) == CalendarView)
  {
  }

  /** The part of the UI state input handling reads and writes, including the
      index of the appointment highlighted on the selected day. Window size
      and console handles are left out. */
  datatype UIState = UIState(
    cursorX: int,
    cursorY: int,
    selectedView: View,
    currentDate: Date,
    selectedDate: Date,
    appointmentScroll: int,
    todoScroll: int,
    appointmentDisplayIndex: int)

  datatype Action = NoAction | Quit | Redraw | AddAppointment | AddTodo | Delete | Edit | Help

  // ---------------------------------------------------------------------------
  // Calendar navigation

  /** The month before `(year, month)`, wrapping into the previous year. */
  function PrevMonth(year: int, month: int): (r: (int, int))
    requires ValidMonth(month)
    ensures ValidMonth(r.1) && 12 * r.0 + r.1 == 12 * year + month - 1
  {
    if month - 1 < 1 then (year - 1, 12) else (year, month - 1)
  }

  /** The month after `(year, month)`, wrapping into the next year. */
  function FollowingMonth(year: int, month: int): (r: (int, int))
    requires ValidMonth(month)
    ensures ValidMonth(r.1) && 12 * r.0 + r.1 == 12 * year + month + 1
  {
    if month + 1 > 12 then (year + 1, 1) else (year, month + 1)
  }

  /** `navigate_calendar`. LEFT/RIGHT step a day, UP/DOWN a week, PGUP/PGDN a
      month (clamping the day), HOME jumps to today; each branch rolls into
      the neighbouring month by hand. Every call resets the highlighted
      appointment. The month-length lookup needs a valid month. */
  function NavigateCalendar(key: int, s: UIState): (r: UIState)
    requires ValidMonth(s.selectedDate.month)
    ensures r == s.(selectedDate := r.selectedDate, appointmentDisplayIndex := 0)
    ensures key != KeyHome ==> ValidMonth(r.selectedDate.month)
    ensures key !in {KeyLeft, KeyRight, KeyUp, KeyDown, KeyPgUp, KeyPgDn, KeyHome} ==>
      r.selectedDate == s.selectedDate
  {
    var d := s.selectedDate;
    var daysInMonth := DaysInMonth(d.year, d.month);
    var selected :=
      if key == KeyLeft then
        if d.day - 1 < 1 then
          var (y, m) := PrevMonth(d.year, d.month);
          Date(y, m, DaysInMonth(y, m))
        else d.(day := d.day - 1)
      else if key == KeyRight then
        if d.day + 1 > daysInMonth then
          var (y, m) := FollowingMonth(d.year, d.month);
          Date(y, m, 1)
        else d.(day := d.day + 1)
      else if key == KeyUp then
        if d.day - 7 < 1 then
          var (y, m) := PrevMonth(d.year, d.month);
          Date(y, m, DaysInMonth(y, m) + (d.day - 7))
        else d.(day := d.day - 7)
      else if key == KeyDown then
        if d.day + 7 > daysInMonth then
          var (y, m) := FollowingMonth(d.year, d.month);
          Date(y, m, d.day + 7 - daysInMonth)
        else d.(day := d.day + 7)
      else if key == KeyPgUp then
        var (y, m) := PrevMonth(d.year, d.month);
        var dm := DaysInMonth(y, m);
        Date(y, m, if d.day > dm then dm else d.day)
      else if key == KeyPgDn then
        var (y, m) := FollowingMonth(d.year, d.month);
        var dm := DaysInMonth(y, m);
        Date(y, m, if d.day > dm then dm else d.day)
      else if key == KeyHome then s.currentDate
      else d;
    s.(selectedDate := selected, appointmentDisplayIndex := 0)
  }

  /** RIGHT and LEFT are exactly one day forward and back. */
  lemma DayKeysStepOneDay(s: UIState)
    requires ValidMonth(s.selectedDate.month)
    ensures NavigateCalendar(KeyRight, s).selectedDate == AddDays(s.selectedDate, 1)
    ensures NavigateCalendar(KeyLeft, s).selectedDate == AddDays(s.selectedDate, -1)
  {
    assert AddDays(s.selectedDate, 1) == AddDays(NextDay(s.selectedDate), 0);
    assert AddDays(s.selectedDate, -1) == AddDays(PrevDay(s.selectedDate), 0);
  }

  /** DOWN on a real date is exactly seven days forward. */
  lemma DownStepsOneWeek(s: UIState)
    requires ValidDate(s.selectedDate)
    ensures NavigateCalendar(KeyDown, s).selectedDate == AddDays(s.selectedDate, 7)
  {
    var d := s.selectedDate;
    var dim := DaysInMonth(d.year, d.month);
    if d.day + 7 <= dim {
      AddDaysWithinMonth(d, 7);
    } else {
      WeekAcrossMonthEnd(d);
    }
  }

  /** A week forward from the last seven days of a month lands in the next
      month, on the day the overshoot names. */
  lemma WeekAcrossMonthEnd(d: Date)
    requires ValidDate(d) && d.day + 7 > DaysInMonth(d.year, d.month)
    ensures var (y, m) := FollowingMonth(d.year, d.month);
      AddDays(d, 7) == Date(y, m, d.day + 7 - DaysInMonth(d.year, d.month))
  {
    var dim := DaysInMonth(d.year, d.month);
    var (y, m) := FollowingMonth(d.year, d.month);
    var k := dim - d.day;
    var last := Date(d.year, d.month, dim);
    assert AddDays(d, k) == last by { AddDaysWithinMonth(d, k); }
    assert AddDays(last, 7 - k) == Date(y, m, 7 - k) by { PastMonthEnd(d.year, d.month, 6 - k); }
    AddDaysCompose(d, k, 7 - k);
  }

  /** From a month's last day, `n + 1` days forward land on day `n + 1` of the
      following month, for any `n` that a month of 28 days holds. */
  lemma PastMonthEnd(year: int, month: int, n: int)
    requires ValidMonth(month) && 0 <= n < 28
    ensures var (y, m) := FollowingMonth(year, month);
      AddDays(Date(year, month, DaysInMonth(year, month)), n + 1) == Date(y, m, n + 1)
  {
    var (y, m) := FollowingMonth(year, month);
    var last := Date(year, month, DaysInMonth(year, month));
    assert NextDay(last) == Date(y, m, 1);
    assert AddDays(last, n + 1) == AddDays(Date(y, m, 1), n);
    AddDaysWithinMonth(Date(y, m, 1), n);
  }

  /** UP on a real date is exactly seven days back. */
  lemma UpStepsOneWeek(s: UIState)
    requires ValidDate(s.selectedDate)
    ensures NavigateCalendar(KeyUp, s).selectedDate == AddDays(s.selectedDate, -7)
  {
    var d := s.selectedDate;
    if d.day - 7 >= 1 {
      AddDaysWithinMonth(d, -7);
    } else {
      var k := d.day - 1;
      AddDaysWithinMonth(d, -k);
      var first := Date(d.year, d.month, 1);
      assert AddDays(first, -1) == AddDays(PrevDay(first), 0);
      var last := PrevDay(first);
      AddDaysWithinMonth(last, -(6 - k));
      AddDaysCompose(d, -k, -1);
      AddDaysCompose(d, -k - 1, -(6 - k));
    }
  }

  /** PGDN and PGUP are exactly one month forward and back, day clamped. */
  lemma PageKeysStepOneMonth(s: UIState)
    requires ValidMonth(s.selectedDate.month)
    ensures NavigateCalendar(KeyPgDn, s).selectedDate == AddMonths(s.selectedDate, 1)
    ensures NavigateCalendar(KeyPgUp, s).selectedDate == AddMonths(s.selectedDate, -1)
  {
    var d := s.selectedDate;
    var f := AddMonths(d, 1);
    var n := FollowingMonth(d.year, d.month);
    MonthCountUnique(f.year, f.month, n.0, n.1);
    var b := AddMonths(d, -1);
    var p := PrevMonth(d.year, d.month);
    MonthCountUnique(b.year, b.month, p.0, p.1);
  }

  /** HOME selects today. */
  lemma HomeSelectsToday(s: UIState)
    requires ValidMonth(s.selectedDate.month)
    ensures NavigateCalendar(KeyHome, s).selectedDate == s.currentDate
  {
  }

  /** Every navigation key keeps a real selected date real, given a real today. */
  lemma NavigateCalendarKeepsDatesValid(key: int, s: UIState)
    requires ValidDate(s.selectedDate) && ValidDate(s.currentDate)
    ensures ValidDate(NavigateCalendar(key, s).selectedDate)
  {
    var d := s.selectedDate;
    if key == KeyRight || key == KeyLeft {
      DayKeysStepOneDay(s);
    } else if key == KeyDown {
      DownStepsOneWeek(s);
    } else if key == KeyUp {
      UpStepsOneWeek(s);
    } else if key == KeyPgDn || key == KeyPgUp {
      PageKeysStepOneMonth(s);
    }
  }

  // ---------------------------------------------------------------------------
  // List navigation

  /** `navigate_appointments`: UP/DOWN move the highlighted appointment,
      PGUP/PGDN scroll by five; neither goes below zero. */
  function NavigateAppointments(key: int, s: UIState): (r: UIState)
    ensures r == s.(appointmentDisplayIndex := r.appointmentDisplayIndex, appointmentScroll := r.appointmentScroll)
    ensures s.appointmentDisplayIndex >= 0 ==> r.appointmentDisplayIndex >= 0
    ensures s.appointmentScroll >= 0 ==> r.appointmentScroll >= 0
    ensures key == KeyUp ==> r.appointmentDisplayIndex == if s.appointmentDisplayIndex > 0 then s.appointmentDisplayIndex - 1 else s.appointmentDisplayIndex
    ensures key == KeyDown ==> r.appointmentDisplayIndex == s.appointmentDisplayIndex + 1
    ensures key == KeyPgUp ==> r.appointmentScroll == if s.appointmentScroll - 5 < 0 then 0 else s.appointmentScroll - 5
    ensures key == KeyPgDn ==> r.appointmentScroll == s.appointmentScroll + 5
    ensures key !in {KeyUp, KeyDown, KeyPgUp, KeyPgDn} ==> r == s
  {
    if key == KeyUp then
      if s.appointmentDisplayIndex > 0 then s.(appointmentDisplayIndex := s.appointmentDisplayIndex - 1) else s
    else if key == KeyDown then
      s.(appointmentDisplayIndex := s.appointmentDisplayIndex + 1)
    else if key == KeyPgUp then
      var scroll := s.appointmentScroll - 5;
      s.(appointmentScroll := if scroll < 0 then 0 else scroll)
    else if key == KeyPgDn then
      s.(appointmentScroll := s.appointmentScroll + 5)
    else s
  }

  /** DOWN then UP, and PGDN then PGUP, come back to where they started. */
  lemma AppointmentKeysUndo(s: UIState)
    requires s.appointmentDisplayIndex >= 0 && s.appointmentScroll >= 0
    ensures NavigateAppointments(KeyUp, NavigateAppointments(KeyDown, s)) == s
    ensures NavigateAppointments(KeyPgUp, NavigateAppointments(KeyPgDn, s)) == s
  {
  }

  /** The to-do row under the cursor: screen row plus scroll offset. */
  function TodoRow(s: UIState): int {
    s.cursorY + s.todoScroll
  }

  /** `navigate_todos`: UP moves the cursor, or scrolls once the cursor is at
      the top; DOWN moves the cursor; PGUP/PGDN scroll by five. */
  function NavigateTodos(key: int, s: UIState): (r: UIState)
    ensures r == s.(cursorY := r.cursorY, todoScroll := r.todoScroll)
    ensures s.cursorY >= 0 ==> r.cursorY >= 0
    ensures s.todoScroll >= 0 ==> r.todoScroll >= 0
    ensures key == KeyUp && s.cursorY >= 0 && s.todoScroll >= 0 ==>
      TodoRow(r) == if TodoRow(s) > 0 then TodoRow(s) - 1 else 0
    ensures key == KeyUp && s.cursorY > 0 ==> r.cursorY == s.cursorY - 1 && r.todoScroll == s.todoScroll
    ensures key == KeyUp && s.cursorY <= 0 ==>
      r.cursorY == s.cursorY && r.todoScroll == if s.todoScroll > 0 then s.todoScroll - 1 else s.todoScroll
    ensures key == KeyDown ==> r.cursorY == s.cursorY + 1 && r.todoScroll == s.todoScroll
    ensures key == KeyPgUp ==> r.cursorY == s.cursorY && r.todoScroll == if s.todoScroll - 5 < 0 then 0 else s.todoScroll - 5
    ensures key == KeyPgDn ==> r.cursorY == s.cursorY && r.todoScroll == s.todoScroll + 5
    ensures key !in {KeyUp, KeyDown, KeyPgUp, KeyPgDn} ==> r == s
  {
    if key == KeyUp then
      if s.cursorY > 0 then s.(cursorY := s.cursorY - 1)
      else if s.todoScroll > 0 then s.(todoScroll := s.todoScroll - 1)
      else s
    else if key == KeyDown then
      s.(cursorY := s.cursorY + 1)
    else if key == KeyPgUp then
      var scroll := s.todoScroll - 5;
      s.(todoScroll := if scroll < 0 then 0 else scroll)
    else if key == KeyPgDn then
      s.(todoScroll := s.todoScroll + 5)
    else s
  }

  /** UP after DOWN returns to the same row, and PGUP after PGDN to the same
      scroll offset. */
  lemma TodoKeysUndo(s: UIState)
    requires s.cursorY >= 0 && s.todoScroll >= 0
    ensures NavigateTodos(KeyUp, NavigateTodos(KeyDown, s)) == s
    ensures NavigateTodos(KeyPgUp, NavigateTodos(KeyPgDn, s)) == s
  {
  }

  // ---------------------------------------------------------------------------
  // Dispatch

  /** Whether `process_input` passes `key` on to the view's navigator: it is
      not one of the keys the global switch answers in this view. */
  predicate ReachesNavigator(key: int, v: View) {
    && !IsQuitKey(key) && !IsHelpKey(key) && !IsAddKey(key) && key != KeyTab
    && !((IsDeleteKey(key) || IsEditKey(key)) && v != CalendarView)
    && !(key == KeySpace && v == TodoView)
  }

  /** `process_input`: global keys first, then the current view's navigator.
      The calendar navigator is only reached with a month it can look up. */
  function ProcessInput(key: int, s: UIState): (r: (Action, UIState))
    requires s.selectedView == CalendarView && ReachesNavigator(key, s.selectedView) ==>
      ValidMonth(s.selectedDate.month)
    ensures r.0 == Quit <==> IsQuitKey(key)
    ensures r.0 == Help <==> IsHelpKey(key)
    ensures r.0 == AddAppointment <==> IsAddKey(key) && s.selectedView != TodoView
    ensures r.0 == AddTodo <==> IsAddKey(key) && s.selectedView == TodoView
    ensures r.0 == Delete <==> IsDeleteKey(key) && s.selectedView != CalendarView
    ensures r.0 == Edit <==>
      (IsEditKey(key) && s.selectedView != CalendarView) || (key == KeySpace && s.selectedView == TodoView)
    ensures r.0 != NoAction
    ensures r.0 == Redraw <==> key == KeyTab || ReachesNavigator(key, s.selectedView)
    ensures r.0 != Redraw ==> r.1 == s
    ensures key == KeyTab ==> r.1 == s.(selectedView := NextView(s.selectedView), cursorX := 0, cursorY := 0, appointmentDisplayIndex := 0)
    ensures ReachesNavigator(key, s.selectedView) ==> r.1 == match s.selectedView
      case CalendarView => NavigateCalendar(key, s)
      case AppointmentsView => NavigateAppointments(key, s)
      case TodoView => NavigateTodos(key, s)
  {
    if IsQuitKey(key) then (Quit, s)
    else if IsHelpKey(key) then (Help, s)
    else if IsAddKey(key) then
      (if s.selectedView == TodoView then AddTodo else AddAppointment, s)
    else if IsDeleteKey(key) && s.selectedView != CalendarView then (Delete, s)
    else if IsEditKey(key) && s.selectedView != CalendarView then (Edit, s)
    else if key == KeyTab then
      (Redraw, s.(selectedView := NextView(s.selectedView), cursorX := 0, cursorY := 0, appointmentDisplayIndex := 0))
    else if key == KeySpace && s.selectedView == TodoView then (Edit, s)
    else
      var next := match s.selectedView
        case CalendarView => NavigateCalendar(key, s)
        case AppointmentsView => NavigateAppointments(key, s)
        case TodoView => NavigateTodos(key, s);
      (Redraw, next)
  }

  /** Real selected and current dates and no negative cursor, scroll or
      highlight index. */
  predicate Consistent(s: UIState) {
    && ValidDate(s.selectedDate) && ValidDate(s.currentDate)
    && s.cursorX >= 0 && s.cursorY >= 0
    && s.appointmentScroll >= 0 && s.todoScroll >= 0
    && s.appointmentDisplayIndex >= 0
  }

  /** Every key keeps a consistent state consistent. */
  lemma ProcessInputKeepsConsistent(key: int, s: UIState)
    requires Consistent(s)
    ensures Consistent(ProcessInput(key, s).1)
  {
    if s.selectedView == CalendarView && ReachesNavigator(key, s.selectedView) {
      NavigateCalendarKeepsDatesValid(key, s);
    }
  }
}
