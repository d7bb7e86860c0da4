/** `CalendarHeader.tsx`: the mode buttons, the previous / next navigation of the anchor
  * date, and the week range the header shows. */
module CalendarHeader {
  import opened Types
  import opened CivilDate
  import Store
  import CalendarGrid

  /** `viewModeLabels`. */
  function ViewModeLabel(m: ViewMode): string {
    match m
    case Day => "Day"
    case Week => "Week"
    case Month => "Month"
  }

  /** `Object.keys(viewModeLabels)`: the buttons, in declaration order. */
  function ViewModes(): seq<ViewMode> {
    [Day, Week, Month]
  }

  /** There is one button per mode, each mode exactly once, and the labels tell the
    * modes apart. */
  lemma ModeButtons(m: ViewMode, k: ViewMode)
    ensures |ViewModes()| == 3 && m in ViewModes()
    ensures forall i, j :: 0 <= i < j < 3 ==> ViewModes()[i] != ViewModes()[j]
    ensures ViewModeLabel(m) == ViewModeLabel(k) <==> m == k
  {
  }

  /** The anchor `handlePrevious` writes: one day back, seven days back, or the same
    * day of the previous month (with `setMonth`'s roll-over). */
  function Previous(mode: ViewMode, n: Day): (r: Day)
    ensures mode == Day ==> r == n - 1
    ensures mode == Week ==> r == n - 7 && WeekDay(r) == WeekDay(n)
    ensures mode == Month ==> r == SetMonth(n, MonthOf(n) - 1)
  {
    match mode
    case Day => SetDateShift(n, -1); SetDate(n, DateOf(n) - 1)
    case Week => SetDateShift(n, -7); WeekDayShift(n, -1); SetDate(n, DateOf(n) - 7)
    case Month => SetMonth(n, MonthOf(n) - 1)
  }

  /** The anchor `handleNext` writes: one day on, seven days on, or the same day of the
    * next month (with `setMonth`'s roll-over). */
  function Next(mode: ViewMode, n: Day): (r: Day)
    ensures mode == Day ==> r == n + 1
    ensures mode == Week ==> r == n + 7 && WeekDay(r) == WeekDay(n)
    ensures mode == Month ==> r == SetMonth(n, MonthOf(n) + 1)
  {
    match mode
    case Day => SetDateShift(n, 1); SetDate(n, DateOf(n) + 1)
    case Week => SetDateShift(n, 7); WeekDayShift(n, 1); SetDate(n, DateOf(n) + 7)
    case Month => SetMonth(n, MonthOf(n) + 1)
  }

  /** In day and week mode, next undoes previous and previous undoes next. */
  lemma DayWeekRoundTrip(mode: ViewMode, n: Day)
    requires mode != Month
    ensures Next(mode, Previous(mode, n)) == n
    ensures Previous(mode, Next(mode, n)) == n
  {
  }

  /** Moving the month by `k` (one back or one on) keeps the day of the month when the
    * target month is long enough. */
  lemma MonthShiftKeepsDay(n: Day, k: int)
    requires k == 1 || k == -1
    requires DateOf(n) <= DaysInMonth(YearOf(n) + (MonthOf(n) + k) / 12, (MonthOf(n) + k) % 12)
    ensures Decode(SetMonth(n, MonthOf(n) + k))
      == Civil(YearOf(n) + (MonthOf(n) + k) / 12, (MonthOf(n) + k) % 12, DateOf(n))
  {
    var y, m, d := YearOf(n), MonthOf(n), DateOf(n);
    MakeDayInMonth(y, m + k, d);
  }

  /** When the target month is too short, `setMonth` rolls over into the month after it,
    * by the days that do not fit. */
  lemma MonthShiftRollsOver(n: Day, k: int)
    requires k == 1 || k == -1
    requires DateOf(n) > DaysInMonth(YearOf(n) + (MonthOf(n) + k) / 12, (MonthOf(n) + k) % 12)
    ensures var ty, tm := YearOf(n) + (MonthOf(n) + k) / 12, (MonthOf(n) + k) % 12;
      var r := SetMonth(n, MonthOf(n) + k);
      MonthOf(r) == NextMonthIndex(tm) && DateOf(r) == DateOf(n) - DaysInMonth(ty, tm)
  {
    var y, m, d := YearOf(n), MonthOf(n), DateOf(n);
    assert d <= 31;
    MakeDayPastMonth(y, m + k, d);
  }

  /** `setMonth(m - 1)` and back again with `setMonth(m)`: when day `d` exists in the previous month,
    * the step back lands on it and the step on returns to `(y, m, d)`. */
  lemma MakeDayMonthRoundTrip(y: int, m: int, d: int)
    requires 0 <= m < 12
    requires 1 <= d <= DaysInMonth(y + (m - 1) / 12, (m - 1) % 12)
    ensures var ty, tm := y + (m - 1) / 12, (m - 1) % 12;
      Decode(MakeDay(y, m - 1, d)) == Civil(ty, tm, d)
      && MakeDay(ty, tm + 1, d) == MonthStart(y, m) + d - 1
  {
    var ty, tm := y + (m - 1) / 12, (m - 1) % 12;
    MakeDayInMonth(y, m - 1, d);
    assert ty + (tm + 1) / 12 == y && (tm + 1) % 12 == m by {
      MonthIndexRoundTrip(y, m);
    }
  }

  /** The year and month index arithmetic of one month back and then one on. */
  lemma MonthIndexRoundTrip(y: int, m: int)
    requires 0 <= m < 12
    ensures var ty, tm := y + (m - 1) / 12, (m - 1) % 12;
      0 <= tm < 12 && ty + (tm + 1) / 12 == y && (tm + 1) % 12 == m
  {
  }

  lemma PreviousMonthStep(n: Day)
    ensures Previous(Month, n) == SetMonth(n, MonthOf(n) - 1)
  {
  }

  lemma NextMonthStep(n: Day)
    ensures Next(Month, n) == SetMonth(n, MonthOf(n) + 1)
  {
  }

  /** The day-number form of `MonthRoundTrip`: `p` is `(y, m, d)` one month back, and
    * `q` is `p` one month on. */
  lemma SetMonthRoundTrip(y: int, m: int, d: int, p: Day, q: Day)
    requires 0 <= m < 12
    requires 1 <= d <= DaysInMonth(y + (m - 1) / 12, (m - 1) % 12)
    requires p == MakeDay(y, m - 1, d)
    requires q == MakeDay(YearOf(p), MonthOf(p) + 1, DateOf(p))
    ensures q == MonthStart(y, m) + d - 1
  {
    MakeDayMonthRoundTrip(y, m, d);
  }

  /** In month mode, next undoes previous whenever the day of the month exists in the
    * previous month. */
  lemma MonthRoundTripWhenDayExists(n: Day)
    requires DateOf(n) <= DaysInMonth(YearOf(n) + (MonthOf(n) - 1) / 12, (MonthOf(n) - 1) % 12)
    ensures Next(Month, Previous(Month, n)) == n
  {
    var p := Previous(Month, n);
    PreviousMonthStep(n);
    NextMonthStep(p);
    SetMonthRoundTrip(YearOf(n), MonthOf(n), DateOf(n), p, Next(Month, p));
  }

  /** When the day of the month does not exist in the previous month, the step back
    * rolls over to day 1..3 of the same month, and the step on keeps that smaller day
    * of the month, so month navigation does not come back. */
  lemma MonthRoundTripWhenDayMissing(n: Day)
    requires DateOf(n) > DaysInMonth(YearOf(n) + (MonthOf(n) - 1) / 12, (MonthOf(n) - 1) % 12)
    ensures DateOf(Next(Month, Previous(Month, n))) < DateOf(n)
    ensures Next(Month, Previous(Month, n)) != n
  {
    var p := Previous(Month, n);
    var pm := (MonthOf(n) - 1) % 12;
    PreviousMonthStep(n);
    MonthShiftRollsOver(n, -1);
    assert DateOf(p) <= 3;
    var tm := (MonthOf(p) + 1) % 12;
    assert 28 <= DaysInMonth(YearOf(p) + (MonthOf(p) + 1) / 12, tm);
    MonthShiftKeepsDay(p, 1);
    NextMonthStep(p);
  }

  /** In month mode, next undoes previous exactly when the day of the month exists in
    * the previous month. */
  lemma MonthRoundTrip(n: Day)
    ensures Next(Month, Previous(Month, n)) == n
      <==> DateOf(n) <= DaysInMonth(YearOf(n) + (MonthOf(n) - 1) / 12, (MonthOf(n) - 1) % 12)
  {
    if DateOf(n) <= DaysInMonth(YearOf(n) + (MonthOf(n) - 1) / 12, (MonthOf(n) - 1) % 12) {
      MonthRoundTripWhenDayExists(n);
    } else {
      MonthRoundTripWhenDayMissing(n);
    }
  }

  /** One month back from March 31 of a common year: February 31 rolls over to
    * March 3. */
  lemma PreviousFromMarch31(y: int)
    requires !IsLeapYear(y)
    ensures Previous(Month, MonthStart(y, 2) + 30) == MonthStart(y, 2) + 2
  {
    DecodeInMonth(y, 2, 30);
    DaysBeforeMonthStep(y, 1);
  }

  /** One month on from March 3: April 3. */
  lemma NextFromMarch3(y: int)
    ensures Next(Month, MonthStart(y, 2) + 2) == MonthStart(y, 3) + 2
  {
    DecodeInMonth(y, 2, 2);
  }

  /** Month navigation has no general round trip: from March 31 of a common year,
    * previous gives March 3 (February 31 rolls over) and next then gives April 3. */
  lemma MonthNavigationFromMarch31(y: int)
    requires !IsLeapYear(y)
    ensures var n := MonthStart(y, 2) + 30;
      Previous(Month, n) == MonthStart(y, 2) + 2
      && Next(Month, Previous(Month, n)) == MonthStart(y, 3) + 2
      && Next(Month, Previous(Month, n)) != n
  {
    PreviousFromMarch31(y);
    NextFromMarch3(y);
    DaysBeforeMonthStep(y, 2);
  }

  /** `handlePrevious`: copies the anchor, steps the copy back by the mode's unit and
    * writes it; nothing else in the store changes. */
  method HandlePrevious(store: Store.TaskStore)
    modifies store`currentDate
    ensures store.currentDate == Previous(store.viewMode, old(store.currentDate))
  {
    var newDate := store.currentDate;
    match store.viewMode {
      case Day => newDate := SetDate(newDate, DateOf(newDate) - 1);
      case Week => newDate := SetDate(newDate, DateOf(newDate) - 7);
      case Month => newDate := SetMonth(newDate, MonthOf(newDate) - 1);
    }
    store.SetCurrentDate(newDate);
  }

  /** `handleNext`: copies the anchor, steps the copy on by the mode's unit and writes
    * it; nothing else in the store changes. */
  method HandleNext(store: Store.TaskStore)
    modifies store`currentDate
    ensures store.currentDate == Next(store.viewMode, old(store.currentDate))
  {
    var newDate := store.currentDate;
    match store.viewMode {
      case Day => newDate := SetDate(newDate, DateOf(newDate) + 1);
      case Week => newDate := SetDate(newDate, DateOf(newDate) + 7);
      case Month => newDate := SetMonth(newDate, MonthOf(newDate) + 1);
    }
    store.SetCurrentDate(newDate);
  }

  /** The Today button: `setCurrentDate(new Date())`, with the clock's reading as
    * `now`; nothing else changes. */
  method HandleToday(store: Store.TaskStore, now: Day)
    modifies store`currentDate
    ensures store.currentDate == now
  {
    store.SetCurrentDate(now);
  }

  /** A mode button: `setViewMode(mode)`, and nothing else changes. */
  method SelectMode(store: Store.TaskStore, mode: ViewMode)
    modifies store`viewMode
    ensures store.viewMode == mode
  {
    store.SetViewMode(mode);
  }

  /** The week range of `formatDateRange`: back to the Sunday of the anchor's week,
    * then six days on. */
  method WeekRange(n: Day) returns (r: DateRange)
    ensures r.start == CalendarGrid.GetWeekDates(n)[0] && r.end == CalendarGrid.GetWeekDates(n)[6]
    ensures WeekDay(r.start) == 0 && r.end == r.start + 6 && r.start <= n <= r.end
  {
    var start := n;
    start := SetDate(start, DateOf(start) - WeekDay(start));
    SetDateShift(n, -WeekDay(n));
    WeekStartIsSunday(n);
    var end := start;
    end := SetDate(end, DateOf(end) + 6);
    SetDateShift(start, 6);
    r := DateRange(start, end);
  }
}
