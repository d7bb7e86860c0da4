/** `CalendarGrid.tsx`: the dates a week or month view shows, the tasks bound to each
  * cell, and the drop that moves a task onto a cell. */
module CalendarGrid {
  import opened Wrappers
  import opened Seqs
  import opened Types
  import opened CivilDate
  import opened IsoKey
  import Store

  /** `getDaysInMonth(date)`: `new Date(year, month + 1, 0).getDate()`, the last day of
    * the anchor's month in the constructor's full year (1900 + year for years 0 to 99). */
  function GetDaysInMonth(n: Day): (r: int)
    ensures r == DaysInMonth(FullYear(YearOf(n)), MonthOf(n))
    ensures 28 <= r <= 31
    ensures r == 29 <==> MonthOf(n) == 1 && IsLeapYear(FullYear(YearOf(n)))
  {
    var y, m := FullYear(YearOf(n)), MonthOf(n);
    LastDayOfMonth(y, m);
    DateOf(NewDate(YearOf(n), m + 1, 0))
  }

  /** `getWeekDates(date)`: step back to the Sunday of the week, then seven days on. */
  function GetWeekDates(n: Day): (r: seq<Day>)
    ensures |r| == 7
    ensures forall i :: 0 <= i < 7 ==> r[i] == r[0] + i
    ensures WeekDay(r[0]) == 0 && r[0] <= n <= r[6]
  {
    var start := SetDate(n, DateOf(n) - WeekDay(n));
    assert start == n - WeekDay(n) by {
      SetDateShift(n, -WeekDay(n));
    }
    WeekStartIsSunday(n);
    var r := seq(7, i => SetDate(start, DateOf(start) + i));
    assert forall i :: 0 <= i < 7 ==> r[i] == start + i by {
      SetDateAll(start);
    }
    r
  }

  /** `new Date(date.getFullYear(), date.getMonth(), 1)`: the first of the anchor's month
    * in the constructor's full year. */
  function FirstOfMonth(n: Day): Day {
    NewDate(YearOf(n), MonthOf(n), 1)
  }

  /** `getMonthDates(date)`: 42 days from `startDay` days before the first of the month,
    * `startDay` being the first's weekday. (The source also computes the month's length
    * here and does not use it.) */
  function GetMonthDates(n: Day): (r: seq<Day>)
    ensures |r| == 42
    ensures forall i :: 0 <= i < 42 ==> r[i] == r[0] + i
    ensures WeekDay(r[0]) == 0
    ensures r[WeekDay(FirstOfMonth(n))] == FirstOfMonth(n)
  {
    var start := FirstOfMonth(n);
    var startDay := WeekDay(start);
    WeekStartIsSunday(start);
    var r := seq(42, i => SetDate(start, DateOf(start) + (i - startDay)));
    assert forall i :: 0 <= i < 42 ==> r[i] == start - startDay + i by {
      SetDateAll(start);
    }
    r
  }

  /** `date.getMonth() === currentDate.getMonth()`: only the month index is compared. */
  predicate IsCurrentMonth(d: Day, anchor: Day) {
    MonthOf(d) == MonthOf(anchor)
  }

  /** `new Date().toDateString() === date.toDateString()`, with the clock's reading as
    * `now`: the two print the same local calendar date (the weekday they also print
    * follows from it). */
  predicate IsToday(d: Day, now: Day) {
    Decode(d) == Decode(now)
  }

  /** A cell is highlighted as today exactly when it is the clock's day, that is,
    * exactly when its date key is today's key. */
  lemma IsTodayIff(d: Day, now: Day)
    ensures IsToday(d, now) <==> d == now
    ensures IsToday(d, now) <==> Key(d) == Key(now)
  {
    KeyInjective(d, now);
  }

  /** The days of month `m` of year `y`, first to last. */
  function MonthDays(y: int, m: int): (r: seq<Day>)
    requires 0 <= m < 12
    ensures |r| == DaysInMonth(y, m)
    ensures forall k :: 0 <= k < |r| ==> r[k] == MonthStart(y, m) + k
  {
    seq(DaysInMonth(y, m), k => MonthStart(y, m) + k)
  }

  /** Day `k` of `MonthDays` is the date `k + 1` of that month. */
  lemma MonthDaysDecode(y: int, m: int)
    requires 0 <= m < 12
    ensures forall k :: 0 <= k < |MonthDays(y, m)| ==> Decode(MonthDays(y, m)[k]) == Civil(y, m, k + 1)
  {
    var r := MonthDays(y, m);
    forall k | 0 <= k < |r| ensures Decode(r[k]) == Civil(y, m, k + 1) {
      DecodeInMonth(y, m, k);
    }
  }

  /** The grid's first of the month is the start of the anchor's month in the full year:
    * the anchor's own year from 100 on and below 0, 1900 + year from 0 to 99. */
  lemma FirstOfMonthIsMonthStart(n: Day)
    ensures FirstOfMonth(n) == MonthStart(FullYear(YearOf(n)), MonthOf(n))
    ensures 0 <= YearOf(n) <= 99 ==> FirstOfMonth(n) == MonthStart(1900 + YearOf(n), MonthOf(n))
    ensures !(0 <= YearOf(n) <= 99) ==> FirstOfMonth(n) == MonthStart(YearOf(n), MonthOf(n))
  {
    var m := MonthOf(n);
    assert m / 12 == 0 && m % 12 == m;
  }

  /** Around the first of a month: the `s` days before it belong to another month,
    * then the month's own days, then days of another month again. */
  lemma OffsetInMonth(y: int, m: int, s: int, i: int)
    requires 0 <= m < 12 && 0 <= s < 7 && 0 <= i < 42
    ensures MonthOf(MonthStart(y, m) - s + i) == m <==> s <= i < s + DaysInMonth(y, m)
  {
    if i < s {
      DecodeBeforeMonth(y, m, s - i);
    } else if i < s + DaysInMonth(y, m) {
      DecodeInMonth(y, m, i - s);
    } else {
      DecodeAfterMonth(y, m, i - s - DaysInMonth(y, m));
    }
  }

  /** Cell `i` of the month grid is day `i - s` counted from the first of the month. */
  lemma MonthGridCellDate(n: Day, i: int)
    requires 0 <= i < 42
    ensures GetMonthDates(n)[i] == MonthStart(FullYear(YearOf(n)), MonthOf(n)) - WeekDay(FirstOfMonth(n)) + i
  {
    FirstOfMonthIsMonthStart(n);
  }

  /** Cell `i` of the month grid is flagged exactly when it lies in the anchor month. */
  lemma MonthGridCellFlag(n: Day, i: int)
    requires 0 <= i < 42
    ensures var s := WeekDay(FirstOfMonth(n));
      IsCurrentMonth(GetMonthDates(n)[i], n) <==> s <= i < s + GetDaysInMonth(n)
  {
    var y, m, s := FullYear(YearOf(n)), MonthOf(n), WeekDay(FirstOfMonth(n));
    var c := GetMonthDates(n)[i];
    MonthGridCellDate(n, i);
    assert c == MonthStart(y, m) - s + i;
    OffsetInMonth(y, m, s, i);
    assert GetDaysInMonth(n) == DaysInMonth(y, m);
    assert MonthOf(c) == m <==> s <= i < s + DaysInMonth(y, m);
  }

  /** The month grid's cells flagged as the current month are a run of consecutive
    * positions, `s` of them before and the rest after. */
  lemma MonthGridFlags(n: Day)
    ensures var s := WeekDay(FirstOfMonth(n));
      s + GetDaysInMonth(n) <= 42
      && forall i :: 0 <= i < 42 ==>
           (IsCurrentMonth(GetMonthDates(n)[i], n) <==> s <= i < s + GetDaysInMonth(n))
  {
    forall i | 0 <= i < 42
      ensures IsCurrentMonth(GetMonthDates(n)[i], n)
        <==> WeekDay(FirstOfMonth(n)) <= i < WeekDay(FirstOfMonth(n)) + GetDaysInMonth(n)
    {
      MonthGridCellFlag(n, i);
    }
  }

  /** In a run of consecutive days, when exactly the positions `s..s+len` pass `p` and
    * position `s` holds `start`, filtering by `p` gives the `len` days from `start`. */
  lemma FilterConsecutive(cells: seq<Day>, p: Day -> bool, s: int, len: int, start: Day)
    requires forall i :: 0 <= i < |cells| ==> cells[i] == cells[0] + i
    requires 0 <= s <= s + len <= |cells| && (len > 0 ==> cells[s] == start)
    requires forall i :: 0 <= i < |cells| ==> (p(cells[i]) <==> s <= i < s + len)
    ensures |Filter(cells, p)| == len
    ensures forall k :: 0 <= k < len ==> Filter(cells, p)[k] == start + k
  {
    FilterSlice(cells, p, s, s + len);
  }

  /** Filtering the month grid by the current-month flag leaves the anchor month's days,
    * in order: the cells before them belong to the previous month, the cells after to
    * the next. */
  lemma MonthGridFiltered(n: Day)
    ensures Filter(GetMonthDates(n), (d: Day) => IsCurrentMonth(d, n)) == MonthDays(FullYear(YearOf(n)), MonthOf(n))
  {
    var y, m := FullYear(YearOf(n)), MonthOf(n);
    var cells := GetMonthDates(n);
    var s, len := WeekDay(FirstOfMonth(n)), GetDaysInMonth(n);
    var p := (d: Day) => IsCurrentMonth(d, n);
    MonthGridFlags(n);
    assert forall i :: 0 <= i < |cells| ==> (p(cells[i]) <==> s <= i < s + len);
    FirstOfMonthIsMonthStart(n);
    FilterConsecutive(cells, p, s, len, MonthStart(y, m));
    var r, days := Filter(cells, p), MonthDays(y, m);
    assert |r| == |days| && forall k :: 0 <= k < |r| ==> r[k] == days[k];
  }

  lemma February2024Start()
    ensures MonthStart(2024, 1) == 19754 && IsLeapYear(2024)
  {
    YearStartIsDayFromYear(2024);
    assert LeapYearsBefore(2024) == 490 && LeapYearsBefore(1970) == 477;
  }

  /** Scenario: the leap-year February 2024 starts on a Thursday, so its grid flags
    * cells 4..32, which are February 1 to 29. */
  lemma February2024Grid(n: Day)
    requires YearOf(n) == 2024 && MonthOf(n) == 1
    ensures WeekDay(FirstOfMonth(n)) == 4 && GetDaysInMonth(n) == 29
    ensures forall i :: 0 <= i < 42 ==> (IsCurrentMonth(GetMonthDates(n)[i], n) <==> 4 <= i < 33)
  {
    FirstOfMonthIsMonthStart(n);
    February2024Start();
    MonthGridFlags(n);
  }

  /** A date in February of year 0: the constructor reads the year as 1900, a common
    * year, so `getDaysInMonth` gives 28 although year 0 is a leap year. */
  lemma TwoDigitYearFebruary(n: Day)
    requires YearOf(n) == 0 && MonthOf(n) == 1
    ensures GetDaysInMonth(n) == 28 && IsLeapYear(YearOf(n))
  {
  }

  /** For an anchor in years 0 to 99 the month grid is built around the first of the
    * anchor's month in 1900 + year. */
  lemma TwoDigitYearGrid(n: Day)
    requires 0 <= YearOf(n) <= 99
    ensures Decode(FirstOfMonth(n)) == Civil(1900 + YearOf(n), MonthOf(n), 1)
  {
    FirstOfMonthIsMonthStart(n);
    DecodeInMonth(1900 + YearOf(n), MonthOf(n), 0);
  }

  /** `tasks.filter(task => task.date === key)`: the tasks a cell shows. */
  function CellTasks(ts: seq<Task>, d: Day): (r: seq<Task>)
    ensures forall i :: 0 <= i < |r| ==> r[i] in ts && r[i].date == Some(Key(d))
    ensures forall i :: 0 <= i < |ts| && ts[i].date == Some(Key(d)) ==> ts[i] in r
    ensures Subsequence(r, ts) && |r| == CountWhere(ts, (t: Task) => t.date == Some(Key(d)))
  {
    FilterMembers(ts, (t: Task) => t.date == Some(Key(d)));
    Filter(ts, (t: Task) => t.date == Some(Key(d)))
  }

  /** A task shows in the cell of day `b` exactly when it shows in the cell of day `a`
    * and `a == b`: different cells never share a task. */
  lemma CellsDisjoint(ts: seq<Task>, a: Day, b: Day, t: Task)
    requires t in CellTasks(ts, a)
    ensures t in CellTasks(ts, b) <==> a == b
  {
    if t in CellTasks(ts, b) {
      var i :| 0 <= i < |CellTasks(ts, a)| && CellTasks(ts, a)[i] == t;
      var j :| 0 <= j < |CellTasks(ts, b)| && CellTasks(ts, b)[j] == t;
      KeyInjective(a, b);
    }
  }

  /** One cell of a week or month view. */
  datatype Cell = Cell(date: Day, isCurrentMonth: bool, tasks: seq<Task>)

  /** What `renderGrid` shows: the day view of the anchor, or a grid of cells. */
  datatype Grid = DayGrid(date: Day) | CellGrid(cells: seq<Cell>)

  /** One cell per date, in order, each flagged and holding its tasks. */
  function MakeCells(dates: seq<Day>, anchor: Day, ts: seq<Task>): (cs: seq<Cell>)
    ensures |cs| == |dates|
    ensures forall i :: 0 <= i < |cs| ==>
      cs[i].date == dates[i] && cs[i].tasks == CellTasks(ts, dates[i])
      && cs[i].isCurrentMonth == IsCurrentMonth(dates[i], anchor)
  {
    seq(|dates|, i requires 0 <= i < |dates| => Cell(dates[i], IsCurrentMonth(dates[i], anchor), CellTasks(ts, dates[i])))
  }

  /** `renderGrid()`: day mode hands the anchor to the day view; week and month bind
    * the store's tasks to each cell's date and flag the cells of the anchor's month. */
  function RenderGrid(mode: ViewMode, anchor: Day, ts: seq<Task>): (g: Grid)
    ensures g.DayGrid? <==> mode == Day
    ensures mode == Day ==> g.date == anchor
    ensures g.CellGrid? ==>
      |g.cells| == (if mode == Week then 7 else 42)
      && forall i :: 0 <= i < |g.cells| ==>
           g.cells[i].tasks == CellTasks(ts, g.cells[i].date)
           && g.cells[i].isCurrentMonth == IsCurrentMonth(g.cells[i].date, anchor)
  {
    match mode
    case Day => DayGrid(anchor)
    case Week => CellGrid(MakeCells(GetWeekDates(anchor), anchor, ts))
    case Month => CellGrid(MakeCells(GetMonthDates(anchor), anchor, ts))
  }

  /** The week view's cells are the seven days from the Sunday of the anchor's week. */
  lemma RenderWeekDates(anchor: Day, ts: seq<Task>)
    ensures var g := RenderGrid(Week, anchor, ts);
      WeekDay(g.cells[0].date) == 0 && g.cells[0].date <= anchor <= g.cells[6].date
      && forall i :: 0 <= i < 7 ==> g.cells[i].date == g.cells[0].date + i
  {
    var dates := GetWeekDates(anchor);
    assert RenderGrid(Week, anchor, ts).cells == MakeCells(dates, anchor, ts);
  }

  /** The month view's cells are 42 days from a Sunday, with the first of the month at
    * the position of its weekday. */
  lemma RenderMonthDates(anchor: Day, ts: seq<Task>)
    ensures var g := RenderGrid(Month, anchor, ts);
      WeekDay(g.cells[0].date) == 0
      && g.cells[WeekDay(FirstOfMonth(anchor))].date == FirstOfMonth(anchor)
      && forall i :: 0 <= i < 42 ==> g.cells[i].date == g.cells[0].date + i
  {
    var dates := GetMonthDates(anchor);
    assert RenderGrid(Month, anchor, ts).cells == MakeCells(dates, anchor, ts);
  }

  /** `handleDrop(taskId, key)` of a cell: the task moves to the cell's date and loses
    * its hour. */
  method DropOnCell(store: Store.TaskStore, taskId: string, d: Day)
    requires store.Valid()
    modifies store
    ensures store.Valid()
    ensures store.tasks == Store.WithDate(old(store.tasks), taskId, Some(Key(d)))
    ensures store.taskTypes == old(store.taskTypes) && store.viewMode == old(store.viewMode)
    ensures store.currentDate == old(store.currentDate)
    ensures store.rightPanelWidth == old(store.rightPanelWidth)
  {
    store.UpdateTaskDate(taskId, Some(Key(d)));
  }

  /** After a drop on a cell, the dropped task shows in that cell, with no hour. */
  lemma DroppedTaskShowsInCell(ts: seq<Task>, i: int, d: Day)
    requires 0 <= i < |ts|
    ensures var r := Store.WithDate(ts, ts[i].id, Some(Key(d)));
      r[i] in CellTasks(r, d) && r[i].scheduledTime.None?
  {
  }
}
