# wcal core in Dafny

A model of the core of wcal, a console calendar with an appointment list and
a to-do list. The model covers:

- the calendar arithmetic: leap years, month lengths, the day of the week by
  Zeller's congruence, and date comparison and stepping by days and months;
- the two stores. Appointments are kept sorted by start time, and a query
  finds the appointments whose span covers a day. To-dos are kept with
  unfinished items first and, within each group, the more urgent first;
- the `XdYhZm` duration text, both parsed and formatted;
- the binary save and load of both stores;
- the keyboard handling: the key-to-action mapping and the navigators of the
  three views.

Everything is written as pure functions over immutable values. A list is a
sequence plus the capacity of the buffer behind it. A store file is a sequence
of tokens. The UI state is a record.

Modules, one concept each:

- `CArith`: C's truncating `/` and `%`.
- `Sorting`: sortedness, a reference insertion sort, and the uniqueness of a
  sort without ties.
- `Calendar`: `calendar.c`.
- `Lists`: the growable list that both stores share.
- `Appointments`: `appointments.c` except its dialogs.
- `Duration`: the duration text of the appointment dialogs.
- `Todos`: `todo.c` except its dialogs.
- `Storage`: `storage.c`.
- `Input`: `input.c`.
- `Growth`: the buffer-resize step, as written and as repaired (see Findings).

`qsort` is not stable, so every sort is specified as sorted plus a
permutation of its input. A reference insertion sort stands in for it.
Where ties are impossible, the result is then unique: `Sorting.StrictlySortedIsUnique`.

## Model

Predicates and helpers without a contract of their own are stated through the
rows of the members that use them. `Calendar.ZellerTotal` (calendar.c:31-39) is the
Zeller total before the final reductions: see `Calendar.DayOfWeekByTotal` and
`Calendar.TotalIsSum`. `Appointments.StartsNoLater` (appointments.c:62-67) is the
comparator: see `Appointments.StartsNoLaterIsTotalPreorder` and
`Appointments.ChronologicalIsSorted`. `Appointments.Matches`
(appointments.c:105-111) is the span test: see `Appointments.SpanIsStartToEnd`
and `Appointments.ZeroDurationCoversStartDayOnly`.

| member | source | states |
|---|---|---|
| `CArith.Quot` | calendar.c:36-37 | C's truncating quotient: the ordinary quotient for a non-negative dividend, and negating the dividend negates the quotient |
| `CArith.Rem` | calendar.c:39 | C's remainder: the ordinary remainder for a non-negative dividend; for a negative one it lies in (-b, 0], and negating the dividend negates it |
| `CArith.DivisionIdentity` | calendar.c:36-39 | quotient times divisor plus remainder gives back the dividend, and for a negative dividend the product lies at most b - 1 above it |
| `CArith.NegativeDividend` | calendar.c:36-39 | for a negative dividend the truncated quotient is the exact quotient rounded up, and the remainder differs from the dividend by a multiple of the divisor |
| `CArith.RemCongruent` | calendar.c:39-43 | C's remainder and its dividend agree modulo the divisor, so the weekday can be read off the plain total |
| `Calendar.IsLeapYear` | calendar.c:15-17 | a year not divisible by 4 is common; one divisible by 4 but not by 100 is leap; a century year is leap exactly when divisible by 400 |
| `Calendar.LeapYearCycle` | calendar.c:15-17 | the rule repeats every 400 years; 2000 and 2024 are leap, 1900 and 2023 are not |
| `Calendar.DaysInMonth` | calendar.c:15-27 | February has 29 days exactly in leap years and 28 otherwise; April, June, September and November have 30; the other months have 31 |
| `Calendar.YearLength` | calendar.c:15-27 | the twelve month lengths add up to 366 in a leap year and 365 otherwise |
| `Calendar.MonthName` | calendar.c:65-70 | "Invalid" exactly when the month is outside 1..12, otherwise that month's entry of the name table |
| `Calendar.DayName` | calendar.c:72-77 | "Invalid" exactly when the weekday is outside 0..6, otherwise that entry of the name table |
| `Calendar.DayOfWeek` | calendar.c:29-44 | Zeller's congruence shifted to Sunday = 0 always gives a weekday in 0..6 |
| `Calendar.FirstDayOfMonth` | calendar.c:46-48 | the weekday of the 1st of the month, in 0..6 |
| `Calendar.KnownWeekdays` | calendar.c:29-44 | 1 January 2000 is a Saturday, 1 January 2025 a Wednesday and 29 February 2024 a Thursday |
| `Calendar.DayOfWeekByTotal` | calendar.c:29-44 | for every year, month and day, the weekday is the Zeller total plus 6, modulo 7: C's negative remainder is undone by the added 6 |
| `Calendar.TotalIsSum` | calendar.c:31-39 | for years from 1 on, C's truncating century split is the ordinary one, so the Zeller total is a plain sum |
| `Calendar.DayOfWeekBySum` | calendar.c:29-44 | for years from 1 on, the C formula equals a Zeller sum taken without the March-based year shift |
| `Calendar.ZellerYearStep` | calendar.c:36-39 | the year terms of consecutive years differ by 2 modulo 7 when the later year is leap, and by 1 otherwise |
| `Calendar.CenturyLeap` | calendar.c:15-17 | a century year is leap exactly when its century count is divisible by 4 |
| `Calendar.ZellerSumNext` | calendar.c:29-44 | for years from 1 on, the Zeller sums of a real day and the next differ by one modulo 7 |
| `Calendar.ZellerSumAdvance` | calendar.c:29-44 | for years from 1 on, the Zeller sums of a real day and the day n later differ by n modulo 7 |
| `Calendar.ApartCompose` | calendar.c:29-44 | sums i apart and j apart modulo 7 compose to i + j apart |
| `Calendar.WeekdaysApart` | calendar.c:29-44 | real dates whose sums are k apart modulo 7 fall k weekdays apart |
| `Calendar.DayOfWeekNext` | calendar.c:29-44 | for years from 1 on, the next real day falls on the next weekday, across month and year ends |
| `Calendar.DayOfWeekAdvance` | calendar.c:29-44 | for years from 1 on, n days later is n weekdays later, modulo 7 |
| `Calendar.FirstDayOffset` | calendar.c:46-48 | for every year and month, the weekday of day d is that of the 1st plus d - 1, modulo 7, which is what the month grid relies on |
| `Calendar.CompareDates` | calendar.c:79-83 | zero exactly for equal dates, negative exactly when the first is earlier, positive exactly when it is later |
| `Calendar.CompareDateTimes` | calendar.c:85-91 | the same three-way answer for date-times, ordered by year, month, day, hour, minute |
| `Calendar.CompareAntisymmetric` | calendar.c:79-91 | swapping the arguments swaps a negative answer for a positive one and keeps zero |
| `Calendar.DateTimeBeforeTransitive` | calendar.c:85-91 | the date-time order is transitive and irreflexive |
| `Calendar.NextDay` | calendar.c:95-106 | one forward step lands on a later date with a valid month, and on a real date from a real date |
| `Calendar.PrevDay` | calendar.c:108-119 | one backward step lands on an earlier date with a valid month, and on a real date from a real date |
| `Calendar.StepsInverse` | calendar.c:93-120 | on a real date, a forward step and a backward step undo each other in both orders |
| `Calendar.AddDays` | calendar.c:93-120 | a positive count lands later, a negative one earlier and zero nowhere; real dates stay real |
| `Calendar.AddDaysForwardLast` | calendar.c:95-106 | n + 1 forward steps are n steps followed by one more |
| `Calendar.AddDaysBackwardLast` | calendar.c:108-119 | n - 1 backward steps are n steps followed by one more |
| `Calendar.AddDaysInverse` | calendar.c:93-120 | adding n days and then -n days gives back any real date |
| `Calendar.AddDaysCompose` | calendar.c:93-120 | adding a days and then b days in the same direction is adding a + b days |
| `Calendar.AddDaysWithinMonth` | calendar.c:93-120 | when the result stays in the month, adding days only changes the day field |
| `Calendar.WrapMonth` | calendar.c:125-133 | the normalising loops bring the month into 1..12 and keep the month count 12·year + month |
| `Calendar.AddMonths` | calendar.c:122-140 | the month count moves by exactly n; the day is kept if it fits the new month and clamped to its last day if not; the result is a real date whenever the day was positive |
| `Calendar.MonthCountUnique` | calendar.c:125-133 | a month count determines the year and a month in 1..12 |
| `Calendar.AddMonthsInverse` | calendar.c:122-140 | going n months and back returns the date whenever the first move did not clamp the day |
| `Sorting.Insert` | appointments.c:69-71 | inserting into a sorted sequence keeps it sorted and adds exactly the one element |
| `Sorting.Sort` | appointments.c:69-71 | the reference sort returns a sorted permutation of its input |
| `Sorting.StrictlySortedIsUnique` | todo.c:81-83 | a sequence sorted without ties is the only sorted permutation of its elements, so an unstable sort cannot change it |
| `Sorting.SortKeepsStrictlySorted` | todo.c:81-83 | sorting a sequence that is already sorted without ties leaves it unchanged |
| `Sorting.SortedRemove` | appointments.c:41-51 | removing one element from a sorted sequence leaves it sorted |
| `Lists.GrownCapacity` | appointments.c:25-30 | after an insert the items still fit, and the buffer at most doubles, and only when it was full |
| `Lists.Add` | appointments.c:23-39 | an insert adds exactly the new item, re-sorts, doubles a full buffer and keeps the items within capacity |
| `Lists.Delete` | appointments.c:41-51 | an index outside the list is refused and changes nothing; otherwise the items before it stay, the items after it shift down by one, and the capacity stays |
| `Lists.Edit` | appointments.c:53-60 | an index outside the list is refused and changes nothing; otherwise exactly that item is replaced, the list is re-sorted and its length and capacity stay |
| `Appointments.StartsNoLaterIsTotalPreorder` | appointments.c:62-67 | comparing start times is a total preorder, so sorting by it is well defined |
| `Appointments.ChronologicalIsSorted` | appointments.c:62-71 | the store's order is sortedness under the start-time comparator |
| `Appointments.InitAppointments` | appointments.c:8-12 | a new store is empty with room for 100 |
| `Appointments.SortAppointments` | appointments.c:69-71 | sorting returns a permutation of the appointments in order of start time |
| `Appointments.AddAppointment` | appointments.c:23-39 | adding inserts exactly the appointment, keeps the store in start-time order and keeps every item within capacity |
| `Appointments.DeleteAppointment` | appointments.c:41-51 | deleting a valid index removes exactly that appointment and keeps the store in order; an invalid index is refused |
| `Appointments.EditAppointment` | appointments.c:53-60 | editing a valid index replaces exactly that appointment and restores the order; an invalid index is refused |
| `Appointments.CarriedStart` | appointments.c:80-88 | adding the duration and carrying whole hours out of the minutes keeps the start day and the total minutes since its midnight |
| `Appointments.CarryMinutes` | appointments.c:84-88 | carrying whole hours out of the minute field keeps the time of day as minutes and leaves the minute field in 0..59 |
| `Appointments.CarryHours` | appointments.c:89-103 | carrying whole days out of the hour field moves a real date forward by hour / 24 days and leaves hour % 24; under 24 hours nothing changes |
| `Appointments.MinutesOfDay` | appointments.c:80-103 | a count of minutes since midnight splits into whole days and a time of day in the way the carry loops split it |
| `Appointments.EndTime` | appointments.c:80-103 | a start on a real date plus a duration ends total / 1440 days later, at the time of day total % 1440, where total counts minutes from the start day's midnight |
| `Appointments.Hits` | appointments.c:105-111 | for each appointment, whether its span covers the day |
| `Appointments.TrueIndicesBefore` | appointments.c:76-112 | the covering positions below n, ascending, with every covering position below n among them |
| `Appointments.TrueIndicesPrefix` | appointments.c:76-112 | scanning further only appends positions |
| `Appointments.StoppedScan` | appointments.c:76 | wherever the scan stops, at the end of the list or with max_indices found, it holds the first max_indices covering positions |
| `Appointments.ScanMatches` | appointments.c:76-112 | the scan stopping at `max_indices` matches returns exactly the first that many covering positions, in list order |
| `Appointments.FirstMatches` | appointments.c:73-115 | a clipped prefix of the covering positions is ascending, within the list, made of covering positions, and complete when shorter than the bound |
| `Appointments.FindAppointmentsByDate` | appointments.c:73-115 | the result is, in list order, the first max_indices of all the appointments whose span covers the day; when fewer than that are found, every covering appointment is reported |
| `Appointments.HasAppointmentOnDate` | appointments.c:117-120 | true exactly when some appointment covers the day |
| `Appointments.GetAppointmentIndexForDisplay` | appointments.c:362-371 | the list index of the display_index-th covering appointment among the first 100, or -1 |
| `Appointments.SpanIsStartToEnd` | appointments.c:105-111 | a well-formed appointment covers exactly the days from its start day to the day of its end, both inclusive |
| `Appointments.ZeroDurationCoversStartDayOnly` | appointments.c:105-111 | an appointment without duration covers its start day and no other day |
| `Appointments.ThreeDaySpanEnd` | appointments.c:80-103 | three days from 30 January 2025 at midnight end on 2 February |
| `Appointments.ThreeDaySpanAcrossMonths` | appointments.c:80-111 | three days from 30 January 2025 at midnight covers 30 January to 2 February, but not 29 January or 3 February |
| `Duration.ParseFrom` | appointments.c:237-258 | the scan never lowers the running total |
| `Duration.ParseDuration` | appointments.c:237-258 | the parsed duration is never negative |
| `Duration.SignificantParsesTheSame` | appointments.c:240-254 | characters other than digits and unit letters do not affect the scan |
| `Duration.OtherCharactersIgnored` | appointments.c:240-254 | a duration text parses the same as its digits and unit letters alone |
| `Duration.AppendMinuteUnit` | appointments.c:249-258 | ending the text with "m" has the same effect as the rule that a trailing number counts as minutes |
| `Duration.TrailingDigitsAreMinutes` | appointments.c:255-258 | a number without a unit at the end counts as minutes, exactly as if it ended in "m" |
| `Duration.ParseExamples` | appointments.c:237-258 | "3d2h30m" is 4470 minutes, "" is 0 and "4h" is 240 |
| `Duration.LenientExamples` | appointments.c:237-258 | a bare "30" is 30 minutes, " 1h " is 60 and "5x" is 5: unknown characters are skipped |
| `Duration.PartsParseBack` | appointments.c:122-152 | days, hours and minutes written as their non-zero parts parse back to their total in minutes |
| `Duration.NatToStringValue` | appointments.c:139-149 | a number's decimal digits read back as the number |
| `Duration.ParseDigits` | appointments.c:241-242 | a run of digits accumulates to its decimal value before the next unit letter |
| `Duration.ParsePart` | appointments.c:243-251 | a number followed by a unit letter adds that number of days, hours or minutes to the total |
| `Duration.FormatDurationCompact` | appointments.c:122-152 | 0 is "0m", a negative count gives the empty text, and any non-negative count is formatted so that parsing it gives back exactly that count |
| `Duration.FormatComponents` | appointments.c:131-151 | a positive count is written as its days, its hours under 24 and its minutes under 60, each part only when it is non-zero |
| `Todos.CompareTodos` | todo.c:68-79 | negative exactly when the first item is less completed, or equally completed and more urgent; zero exactly when completion and priority agree |
| `Todos.RanksNoLaterIsTotalPreorder` | todo.c:68-79 | the to-do comparator is a total preorder |
| `Todos.InTodoOrderIsSorted` | todo.c:68-83 | the to-do order is sortedness under the comparator |
| `Todos.TodoOrderByFields` | todo.c:73-78 | sorted means completion ascending and priority descending among equally completed items; with 0/1 flags every unfinished item comes before every finished one |
| `Todos.InitTodos` | todo.c:8-12 | a new list is empty with room for 50 |
| `Todos.SortTodos` | todo.c:81-83 | sorting returns a permutation of the items in to-do order |
| `Todos.AddTodo` | todo.c:23-39 | adding inserts exactly the item, keeps to-do order, and doubles a full buffer |
| `Todos.DeleteTodo` | todo.c:41-51 | deleting a valid index removes exactly that item and keeps the order; an invalid index is refused |
| `Todos.EditTodo` | todo.c:53-60 | editing a valid index replaces exactly that item and restores to-do order; an invalid index is refused |
| `Todos.Not` | todo.c:64 | C's `!` on a truth value gives 1 for 0 and 0 for anything else |
| `Todos.ToggleTodoCompletion` | todo.c:62-66 | inside the list only the chosen item's completion flips to C's `!` of the old flag, nothing is re-sorted, and every other item stays; outside the list nothing changes |
| `Todos.ToggleTwiceRestores` | todo.c:62-66 | toggling the same item twice restores a list whose flags are 0 or 1 |
| `Todos.ToggleCanBreakOrder` | todo.c:62-66 | toggling can leave a finished item in front of an unfinished one, because nothing re-sorts |
| `Todos.ClampPriority` | todo.c:158-160 | the priority always ends in 0..2, is kept when already in range, and is clamped to the nearer end otherwise |
| `Todos.NewTodo` | todo.c:149-162 | an empty description files nothing; otherwise the item keeps the description, gets the typed priority clamped to 0..2 and starts unfinished |
| `Storage.Records` | storage.c:17-19 | one record per item, in list order |
| `Storage.Save` | storage.c:5-23 | the file is the version, the count and every record in list order |
| `Storage.ReadRecords` | storage.c:59-65 | at most the announced number of records, read from the front, stopping only at the end of the file or at an unreadable record |
| `Storage.ReadRecordsOfRecords` | storage.c:59-65 | reading a stream of whole records gives its first `want` items |
| `Storage.ReservedCapacity` | storage.c:48-57 | after a load the capacity is never lower and has room for the announced count; a count above the capacity sets it to exactly twice the count |
| `Storage.Load` | storage.c:25-73 | loading succeeds exactly when the version is 1 and a count follows, and a failed load leaves the list untouched; on success the items are the records read, sorted, and every item fits the capacity |
| `Storage.LoadSaved` | storage.c:5-73 | loading what a save wrote succeeds and brings back a sorted permutation of the saved items |
| `Storage.LoadSavedExactly` | storage.c:5-73 | a list sorted without ties comes back exactly as it was saved |
| `Storage.LoadTruncated` | storage.c:59-65 | a file cut short after k records loads those k, while the capacity is still reserved for the full announced count |
| `Storage.LoadStopsAtCount` | storage.c:61-62 | records past the announced count are never read |
| `Storage.SaveAppointments` | storage.c:5-23 | the appointment file is the version, the count and every appointment in list order |
| `Storage.LoadAppointments` | storage.c:25-73 | loading appointments either fails and leaves the store, or succeeds with the records read in start-time order |
| `Storage.AppointmentsRoundTrip` | storage.c:5-73 | saving and loading appointments with distinct start times in order gives them back unchanged |
| `Storage.SaveTodos` | storage.c:75-93 | the to-do file is the version, the count and every item in list order |
| `Storage.LoadTodos` | storage.c:95-143 | loading to-dos either fails and leaves the list, or succeeds with the records read in to-do order |
| `Storage.TodosRoundTrip` | storage.c:75-143 | saving and loading to-dos gives back the same items in to-do order, exactly as saved when none tie |
| `Growth.InsertAsWritten` | appointments.c:25-33 | an insert is refused exactly when the buffer is full and the reallocation fails; on a full buffer the capacity is doubled whether or not the reallocation succeeds, and a failed one keeps the old slots; a non-full buffer is written at slot count without allocating |
| `Growth.FailedGrowthOverrunsAsWritten` | appointments.c:25-33 | after one failed growth of a full list of 100, the next insert writes slot 100 of a 100-slot buffer |
| `Growth.Insert` | appointments.c:25-33 | the repaired insert is refused exactly when growth is needed and fails, leaves the buffer as it was then, and otherwise writes a slot that is allocated |
| `Growth.InsertAgreesWhenAllocationSucceeds` | appointments.c:25-33 | with a successful allocation the insert as written and the repaired one agree, and the capacity is the one the list model records |
| `Growth.InsertsStaySound` | todo.c:25-33 | any run of repaired inserts keeps the recorded capacity equal to the allocated one |
| `Growth.InsertsBelowCapacity` | appointments.c:25-33 | below the recorded capacity, inserts as written only count up and never allocate |
| `Growth.ReserveAsWritten` | storage.c:48-57 | a reservation fails exactly when the count exceeds the capacity and the reallocation fails; then the capacity is twice the count with the old buffer in place; a count within capacity changes nothing |
| `Growth.Reserve` | storage.c:48-57 | the repaired reservation fails exactly when growth is needed and fails, leaves the buffer as it was then, and on success allocates room for the count |
| `Growth.FailedReserveOverrunsAsWritten` | storage.c:48-57 | a load that announces 300 records and cannot grow leaves a store of 100 slots recording 600; its 101st insert writes past the end |
| `Input.ViewIndex` | ui.h:34-38 | the three views are the enumeration values 0, 1 and 2 |
| `Input.NextView` | input.c:46-48 | TAB moves to the view with the next enumeration value, modulo 3, and always changes the view |
| `Input.NextViewCycles` | input.c:46-48 | three TABs return to the same view |
| `Input.PrevMonth` | input.c:89-93 | the month before, with the year wrapped, one month earlier in month count |
| `Input.FollowingMonth` | input.c:103-107 | the month after, with the year wrapped, one month later in month count |
| `Input.NavigateCalendar` | input.c:81-174 | only the selected date and the highlighted appointment change; the highlight resets to 0 on every key; any key other than the seven navigation keys leaves the date as it was |
| `Input.DayKeysStepOneDay` | input.c:85-109 | RIGHT is exactly one day forward and LEFT exactly one day back, across month and year ends |
| `Input.DownStepsOneWeek` | input.c:125-136 | on a real date DOWN is exactly seven days forward |
| `Input.WeekAcrossMonthEnd` | input.c:125-136 | seven days from one of a month's last seven days land in the following month on the overshooting day |
| `Input.PastMonthEnd` | input.c:125-136 | n + 1 days forward from a month's last day is day n + 1 of the following month, with the year wrapped after December |
| `Input.UpStepsOneWeek` | input.c:111-123 | on a real date UP is exactly seven days back |
| `Input.PageKeysStepOneMonth` | input.c:138-164 | PGDN and PGUP are exactly one month forward and back, with the day clamped to the new month |
| `Input.HomeSelectsToday` | input.c:166-169 | HOME selects the current date |
| `Input.NavigateCalendarKeepsDatesValid` | input.c:81-174 | with a real current date, every key keeps the selected date real |
| `Input.NavigateAppointments` | input.c:176-200 | only the highlight and the scroll change, and neither goes below zero from a non-negative value; DOWN adds one, UP takes one off unless at 0, PGDN adds 5, PGUP takes 5 off and stops at 0 |
| `Input.AppointmentKeysUndo` | input.c:176-200 | UP after DOWN and PGUP after PGDN return to the same state |
| `Input.NavigateTodos` | input.c:202-228 | only the cursor row and the scroll change, neither goes negative, and UP moves the selected row, cursor plus scroll, up by one until it reaches 0: the cursor moves while above row 0, otherwise the scroll moves |
| `Input.TodoKeysUndo` | input.c:202-228 | UP after DOWN and PGUP after PGDN return to the same state |
| `Input.ProcessInput` | input.c:8-79 | q/Q quits and h/H asks for help in every view; a/A adds a to-do in the to-do view and an appointment otherwise; d/D and e/E delete and edit outside the calendar view; SPACE edits in the to-do view; TAB moves to the next view and homes the cursor and highlight; every other key goes to the view's navigator and redraws; only redraws change the state |
| `Input.ProcessInputKeepsConsistent` | input.c:8-228 | real selected and current dates, and non-negative cursor, scrolls and highlight, survive every key |

## Left out

- ui.c and main.c: console drawing, colours, the event loop, reading the clock. The current date is a field of the UI state.
- `get_week_number` (calendar.c:50-63): it depends on the C library's `mktime` and `strftime`.
- The interactive dialogs and `read_line_visual`: the keystroke loops, the console output and the `_getch` confirmations. This covers `add_*_interactive`, `edit_*_interactive`, `delete_selected_item` and `edit_selected_item`. From them the model keeps only:
  - the duration parse (appointments.c:237-258, the same code at 321-342);
  - the duration format (appointments.c:122-152);
  - the priority clamp and the empty-description cancel (todo.c:151-162).
- `atoi` on the typed priority is a parameter: the number typed.
- `free_appointments` and `free_todos`: they only release memory.
- ICS, CSV and ZIP storage. Only declarations exist (storage.h:23-31), with no implementation among these files.
- Opening and closing files, `fwrite` of raw structures, byte order and padding. A file is a sequence of tokens: an `int` field or one whole record. A token of the wrong kind is an unreadable read, the same as a read past the end of the file.
- Fixed-size description buffers and their truncation: descriptions are unbounded strings.
- C `int` width. Integers are unbounded, so overflow on very large counts, durations or years is not modelled. C's truncating division is modelled where a sign can matter (`CArith`).
- Allocation failure in the list model (`Lists`, `Appointments`, `Todos`, `Storage`): `realloc` succeeds there. The failing case is modelled separately in `Growth`, where the allocation outcome is a parameter.
- Tie order of `qsort`: it is unstable, so sorts are specified as sorted plus a permutation, and loads give back the saved list exactly only when no two items tie.
- `g_last_key_pressed` (input.c:6-9, 77) only routes SPACE to the toggle in `edit_selected_item`, which is left out.
- Header and definition mismatches, which are not behaviour:
  - input.h:35 declares `process_input` with four parameters, but input.c:8 defines it with two. The model follows the definition.
  - ui.h:76 declares `draw_calendar_panel` without the appointment list that ui.c:157 takes.
  - `UIState` in ui.h:41-52 has no `appointment_display_index`, yet input.c:51 and input.c:173 write it. The model's state has that field. It leaves out the window size and console handles.
- Appointments.EndTime: requires a month in 1..12 only when the hour carry reaches whole days, because only then does the C code index the month-length table with it. Its contract describes the end only for a real start date with a non-negative total; for other inputs the result of the carry loops is left unconstrained.
- Appointments.FindAppointmentsByDate: requires every stored appointment's end to be computable. The C scan stops looking once `max_indices` matches are found, so it needs this only of the appointments it reaches.
- Appointments.HasAppointmentOnDate: the same requirement as `FindAppointmentsByDate`.
- Appointments.GetAppointmentIndexForDisplay: the same requirement as `FindAppointmentsByDate`.
- Input.NavigateCalendar: requires a selected month in 1..12, because month lengths are looked up before the key is examined.
- Input.ProcessInput: requires a valid month only when the key reaches the calendar navigator.
- Calendar.DayOfWeekNext: proved for years from 1 on. Zeller's century terms use C's truncating division, which does not step evenly across year 0.
- Calendar.DayOfWeekAdvance: the same range as `DayOfWeekNext`.
- Calendar.PrevDay: requires a month in 1..12 on every backward step. The C loop reads the month table only when the day drops below 1, and then after decrementing and wrapping the month, so it would also step back within a day field of a month outside 1..12. Every caller passes a real date.
- Calendar.AddDays: requires a month in 1..12 whenever a step is taken, backward as well as forward; a backward run that stays inside its month needs none in C. Every caller passes a real date.
- The duration text: the parser follows the code, which accepts a bare number as minutes and skips unknown characters, rather than rejecting them. The example "3d2h30m" is 3·1440 + 2·60 + 30 = 4470 minutes.

## Findings

| source | as written | input that shows it | evidently intended | confidence | as-written member | corrected member |
|---|---|---|---|---|---|---|
| appointments.c:25-29 (and todo.c:25-29) | the capacity is doubled before the `realloc` result is checked; on failure the old buffer stays but the larger capacity is kept | a full list of 100 whose growth fails, followed by one more insert | set the capacity only after the reallocation succeeded, so that a failed insert changes nothing | high; not executed | `Growth.FailedGrowthOverrunsAsWritten` | `Growth.Insert` |
| storage.c:49-55 (and storage.c:119-125) | a load sets the capacity to twice the announced count before `realloc` is checked, and returns failure with that capacity kept | an empty store of 100 slots, a file announcing 300 records, a failing `realloc`, then 101 inserts | set the capacity only after the reallocation succeeded | high; not executed | `Growth.FailedReserveOverrunsAsWritten` | `Growth.Reserve` |
