# Task calendar: store, calendar grid, day view, header and category panel

A model of the core of a small React task calendar. Tasks are filed under categories
("task types"). They sit in a category's backlog until they are dropped on a calendar
day, and on a day they may get an hour slot.

The model covers:

- **Store** (`store.ts`, `types.ts`): the zustand store's state and all its mutations,
  as the class `Store.TaskStore` with `seq` fields. Each mutation is specified by a
  function on the old task list. Lemmas cover:
  - the cascading category delete;
  - distinct ids;
  - valid task-to-category references;
  - the date-then-hour drop protocol.
- **Dates** (`CivilDate`, `IsoKey`): the ECMAScript `Date` operations the components
  use.
  - A date is a day number counted from 1970-01-01.
  - `getFullYear`, `getMonth`, `getDate` and `getDay` are read through a proved
    encode/decode pair.
  - The roll-over of `setDate` and `setMonth` follows ECMA-262 MakeDay. The
    constructor `new Date(y, m, d)` first reads a year from 0 to 99 as 1900 + year
    (ECMA-262 MakeFullYear), then applies MakeDay.
  - A cell's date key, `toISOString().split('T')[0]`, is modelled and proved injective.
- **Calendar grid** (`CalendarGrid.tsx`):
  - the week and month date lists, and which month grid cells are flagged as the
    current month;
  - which tasks each cell shows;
  - `renderGrid` for the three view modes;
  - a drop onto a cell.
- **Day view** (`DayView.tsx`):
  - the split of a day's tasks into unscheduled and scheduled ones;
  - the 24 hour slots, matched through `split(':')[0]` and `padStart`;
  - the two kinds of drop.
- **Header** (`CalendarHeader.tsx`):
  - the mode buttons;
  - previous and next navigation in each mode, including where month navigation does
    and does not round-trip;
  - the week range the header shows.
- **Category cards and panel** (`TaskTypeCard.tsx`, `TaskPanel.tsx`):
  - a card's backlog, its trimmed "add task" form and its two-step delete;
  - the panel's width clamp and its "add category" form;
  - the panel's own simpler card;
  - the resize listeners, as written and as intended.

The store's class methods, the components' state classes and the drop handlers state
their whole new state with `old(...)`. What they promise beyond that is proved as
lemmas about the specification functions those `ensures` clauses name.

## Model

| member | source | states |
|---|---|---|
| Types.ViewModeName | types.ts:16 | the string of each mode: `day`, `week`, `month` |
| Types.Task | types.ts:1-8 | a task record: id, title, a date key or `null`, its category id, the completed flag and an optional `HH:mm` time |
| Types.TaskType | types.ts:10-14 | a category record: id, name and colour |
| Types.DateRange | types.ts:18-21 | a start and an end date |
| Types.Truthy | TaskTypeCard.tsx:16 | JavaScript truthiness of an optional string: present and not empty |
| Types.ParseViewMode | types.ts:16 | exactly the three strings `day`, `week` and `month` are view modes, and each reads back to its own name |
| Types.ViewModeNameRoundTrip | types.ts:16 | every mode parses back from its name |
| Seqs.Filter | store.ts:47-48 | `filter` keeps as many elements as pass the predicate, only passing ones, and all of `s` when all pass |
| Seqs.FilterMembers | store.ts:47-48 | the filter result is a subsequence of the input, holding exactly the elements that pass |
| Seqs.FilterSplit | DayView.tsx:18-19 | filtering by a predicate and by its negation splits the input as a multiset |
| Seqs.FilterConcat | store.ts:47-48 | filtering a concatenation is concatenating the filtered parts |
| Seqs.FilterSlice | CalendarGrid.tsx:114 | when exactly positions `i..j` pass, the filter is the slice `s[i..j]` |
| Store.SeedTaskTypes | store.ts:23-27 | the three start-up categories `work`, `study` and `personal`, with their names and colours, in that order |
| Store.TypesWithout | store.ts:47 | `taskTypes.filter(type => type.id !== id)` |
| Store.TasksWithoutType | store.ts:48 | `tasks.filter(task => task.typeId !== id)` |
| Store.Rewrite | store.ts:52-54 | `tasks.map(task => task.id === id ? f(task) : task)`: same length, the matching tasks replaced by `f` of themselves, the others kept |
| Store.TaskStore | store.ts:4-19 | the store's state: `tasks`, `taskTypes`, `viewMode`, `currentDate` and `rightPanelWidth`, with the setters as methods; `Valid` keeps task ids and category ids distinct |
| Store.ResolveTypeId | store.ts:36 | `typeId \|\| taskTypes[0].id`: a truthy argument wins; otherwise the first category's id; no id exactly when the argument is falsy and there is no category (the source throws there) |
| Store.NewTask | store.ts:33-39 | the appended record has the given id, title and category, no date, is not completed and has no scheduled time |
| Store.WithDate | store.ts:50-55 | `updateTaskDate` sets the matching task's date and clears its scheduled time; the other fields and every other task are unchanged |
| Store.WithSchedule | store.ts:56-61 | `updateTaskSchedule` sets only the matching task's scheduled time |
| Store.WithToggled | store.ts:62-67 | `toggleTaskComplete` flips only the matching task's `completed` |
| Store.AppendKeepsIdsDistinct | store.ts:31-40 | appending a task with a fresh id keeps task ids distinct |
| Store.RewritesKeepIds | store.ts:50-67 | the three per-task updates keep ids in place, so distinct ids stay distinct |
| Store.DeleteTaskTypeCascade | store.ts:45-49 | after `deleteTaskType` no category has the id and no task refers to it; every other category and task survives, in order, with ids still distinct |
| Store.DeleteUnknownTypeIsNoop | store.ts:45-49 | deleting an id no category has changes nothing when references are valid |
| Store.DeleteKeepsReferences | store.ts:45-49 | because the delete cascades, every remaining task still refers to an existing category |
| Store.AddTaskKeepsReferences | store.ts:31-40 | a task added under an existing category keeps all references valid |
| Store.DefaultTypeExists | store.ts:36 | the default category `addTask` falls back to exists |
| Store.UnknownTaskIdIsNoop | store.ts:50-67 | an update for an id no task has leaves the list unchanged |
| Store.ToggleTwice | store.ts:62-67 | toggling twice restores the list |
| Store.WithDateIdempotent | store.ts:50-55 | setting the same date twice equals setting it once |
| Store.DateThenSchedule | store.ts:50-61 | a date update then a schedule update leaves the task with both new values and every other task unchanged |
| Store.TaskStore.constructor | store.ts:21-30 | the initial state: no tasks, the three seeded categories in order, week mode, the given date, width 400 |
| Store.TaskStore.AddTask | store.ts:31-40 | appends the new task under the resolved category; when no category resolves (the source throws), nothing changes; ids stay distinct |
| Store.TaskStore.AddTaskType | store.ts:41-44 | appends the category with the fresh id; nothing else changes |
| Store.TaskStore.DeleteTaskType | store.ts:45-49 | removes the category and its tasks in one step; ids stay distinct |
| Store.TaskStore.UpdateTaskDate | store.ts:50-55 | the task list becomes `WithDate` of the old one; the rest of the state is unchanged |
| Store.TaskStore.UpdateTaskSchedule | store.ts:56-61 | the task list becomes `WithSchedule` of the old one; the rest of the state is unchanged |
| Store.TaskStore.ToggleTaskComplete | store.ts:62-67 | the task list becomes `WithToggled` of the old one; the rest of the state is unchanged |
| Store.TaskStore.SetViewMode | store.ts:68 | sets the view mode, and only that |
| Store.TaskStore.SetCurrentDate | store.ts:69 | sets the anchor date, and only that |
| Store.TaskStore.SetRightPanelWidth | store.ts:70 | sets the panel width (any value), and only that |
| Text.Trim | TaskTypeCard.tsx:21 | `trim()`: the leading whitespace removed, then the trailing |
| Text.TrimSlice | TaskTypeCard.tsx:21-22 | `trim()` returns a slice with only whitespace outside it, starting and ending with a non-space |
| Text.TrimStart | TaskTypeCard.tsx:21 | drops exactly a whitespace prefix: what is left is a suffix that is empty or starts with a non-space |
| Text.TrimEnd | TaskTypeCard.tsx:21 | drops exactly a whitespace suffix: what is left is a prefix that is empty or ends with a non-space |
| Text.TrimEmptyIff | TaskTypeCard.tsx:21 | `if (title.trim())` fails exactly for all-whitespace input |
| Text.TrimIdempotent | TaskTypeCard.tsx:22 | trimming twice is trimming once |
| Text.TrimmedInput | TaskPanel.tsx:34-36 | the guard of both forms: nothing for blank input; otherwise the trimmed text, which is not blank |
| Text.ZeroPadded | DayView.tsx:58 | `n.toString().padStart(w, '0')`: at least w characters, all digits |
| Text.Decimal | DayView.tsx:58 | `n.toString()` is one or more digits, and a single digit exactly below 10 |
| Text.PadStart | DayView.tsx:58 | `padStart(w, fill)` is at least w long, ends with the original text and is filled before it |
| Text.DecimalValue | DayView.tsx:58 | the decimal digits of `n.toString()` read back as `n` |
| Text.ZeroPaddedValue | DayView.tsx:58 | `padStart(w, '0')` keeps the value of the digits |
| Text.ZeroPaddedLength | DayView.tsx:58 | below 10^w the padded text has exactly w digits |
| Text.ZeroPaddedInjective | DayView.tsx:58 | different numbers pad to different texts |
| Text.SplitHead | DayView.tsx:58 | `split(sep)[0]` is the prefix before the first separator, or all of the text when there is none |
| Text.SplitHeadOf | DayView.tsx:58 | the head of `a + sep + b` is `a` when `a` has no separator |
| CivilDate.YearOf | CalendarGrid.tsx:9 | `getFullYear`: the year of the decoded date |
| CivilDate.MonthOf | CalendarGrid.tsx:10 | `getMonth`: the month index of the decoded date, 0 to 11 |
| CivilDate.DateOf | CalendarGrid.tsx:16 | `getDate`: the day of the month, 1 up to the month's length |
| CivilDate.WeekDay | CalendarGrid.tsx:27 | `getDay`: 0 for Sunday to 6 for Saturday, counted from a Thursday at day 0 |
| CivilDate.MakeDay | CalendarGrid.tsx:19 | ECMA-262 MakeDay as `setDate` and `setMonth` apply it: the month index folded into the year by floor division, then the day counted from that month's first |
| CivilDate.FullYear | CalendarGrid.tsx:25 | ECMA-262 MakeFullYear as the `Date` constructor applies it: 1900 + year for years 0 to 99, any other year unchanged |
| CivilDate.NewDate | CalendarGrid.tsx:25 | `new Date(y, m, d)`: MakeDay on the constructor's full year |
| CivilDate.SetDate | CalendarGrid.tsx:19 | `setDate(d)`: the same year and month, day d, with roll-over |
| CivilDate.SetMonth | CalendarHeader.tsx:30 | `setMonth(m)`: the same year and day of the month, month m, with roll-over |
| CivilDate.Decode | CalendarGrid.tsx:9-10 | `getFullYear`, `getMonth` and `getDate` give a real calendar date that encodes back to the day |
| CivilDate.DecodeEncode | CalendarGrid.tsx:9-10 | decoding inverts encoding on every valid date |
| CivilDate.EncodeInjective | CalendarGrid.tsx:9-10 | distinct valid dates have distinct day numbers |
| CivilDate.YearStartIsDayFromYear | CalendarGrid.tsx:25 | counting year by year from 1970 agrees with the closed form of ECMA-262 `DayFromYear` for every year |
| CivilDate.SetDateShift | CalendarGrid.tsx:16-19 | `setDate(getDate() + k)` moves the date by exactly k days, across any month boundary |
| CivilDate.WeekStartIsSunday | CalendarGrid.tsx:16 | `setDate(getDate() - getDay())` lands on a Sunday |
| CivilDate.WeekDayShift | CalendarHeader.tsx:27 | moving by whole weeks keeps the weekday |
| CivilDate.DecodeInMonth | CalendarGrid.tsx:31 | the k-th day after a first of the month, within the month, is date k + 1 of that month |
| CivilDate.NextMonthStart | CalendarGrid.tsx:11 | MakeDay's first of month m + 1 is the first of month m plus the month's length, across the year end too |
| CivilDate.LastDayOfMonth | CalendarGrid.tsx:11 | MakeDay's day 0 of month m + 1 is the last day of month m |
| CivilDate.MakeDayInMonth | CalendarHeader.tsx:30 | `setMonth(mm)` with an out-of-range month moves whole years and keeps an in-range day |
| CivilDate.MakeDayPastMonth | CalendarHeader.tsx:46 | after `setMonth(mm)`, a day past the target month's end rolls into the next month by the excess |
| CivilDate.DecodeBeforeMonth | CalendarGrid.tsx:31 | up to 28 days before a first of the month fall in the previous month |
| CivilDate.DecodeAfterMonth | CalendarGrid.tsx:31 | up to 28 days after a month's last day fall in the next month |
| IsoKey.YearText | CalendarGrid.tsx:44 | the ISO year field: four digits for years 0 to 9999, otherwise a sign and six or more digits |
| IsoKey.CivilKey | CalendarGrid.tsx:44 | the `YYYY-MM-DD` text of a date, with the month printed from 1 |
| IsoKey.Key | CalendarGrid.tsx:44 | `toISOString().split('T')[0]` of a day: the key of its decoded date |
| IsoKey.YearTextInjective | CalendarGrid.tsx:44 | different years print differently in the ISO year field |
| IsoKey.CivilKeyInjective | CalendarGrid.tsx:44 | distinct dates give distinct `YYYY-MM-DD` texts |
| IsoKey.KeyInjective | CalendarGrid.tsx:101 | two days share a key exactly when they are the same day |
| IsoKey.KeyShape | CalendarGrid.tsx:44 | for years 0 to 9999 the key is ten characters: digits with dashes at positions 4 and 7 |
| CalendarGrid.FirstOfMonth | CalendarGrid.tsx:25 | `new Date(getFullYear(), getMonth(), 1)` of the anchor |
| CalendarGrid.IsToday | CalendarGrid.tsx:45 | `new Date().toDateString() === date.toDateString()`, with the clock's day as a parameter: the same local calendar date |
| CalendarGrid.IsTodayIff | CalendarGrid.tsx:44-45 | a cell is highlighted as today exactly when it is the clock's day, and exactly when its date key equals today's key |
| CalendarGrid.IsCurrentMonth | CalendarGrid.tsx:100 | `date.getMonth() === currentDate.getMonth()`: only the month index is compared, not the year |
| CalendarGrid.MonthDays | CalendarGrid.tsx:24-34 | the reference list the month grid is checked against: a month's days from its first to its last |
| CalendarGrid.GetDaysInMonth | CalendarGrid.tsx:8-12 | day 0 of the next month is the month's length in the constructor's full year (1900 + year for years 0 to 99): 28 to 31, and 29 exactly for February of a leap full year |
| CalendarGrid.TwoDigitYearFebruary | CalendarGrid.tsx:8-12 | February of year 0 counts 28 days, those of 1900, although year 0 is a leap year |
| CalendarGrid.GetWeekDates | CalendarGrid.tsx:14-22 | seven consecutive days from a Sunday, containing the anchor |
| CalendarGrid.GetMonthDates | CalendarGrid.tsx:24-34 | 42 consecutive days from a Sunday, with the first of the month at the position of its weekday |
| CalendarGrid.MonthDaysDecode | CalendarGrid.tsx:24-34 | day k of a month's run decodes to date k + 1 of that month |
| CalendarGrid.OffsetInMonth | CalendarGrid.tsx:29-33 | around a first of the month, exactly the month's own days have that month index |
| CalendarGrid.FirstOfMonthIsMonthStart | CalendarGrid.tsx:25 | `new Date(getFullYear(), getMonth(), 1)` is the first of the anchor's month, in the anchor's year from 100 on and below 0, and in 1900 + year for years 0 to 99 |
| CalendarGrid.TwoDigitYearGrid | CalendarGrid.tsx:25 | for an anchor in years 0 to 99 the month grid is built around the first of the same month in 1900 + year |
| CalendarGrid.MonthGridCellDate | CalendarGrid.tsx:29-33 | cell i of the month grid is the first of the month, in the constructor's full year, plus `i - startDay` |
| CalendarGrid.MonthGridCellFlag | CalendarGrid.tsx:114 | a month cell is flagged current exactly when its position is within the month's run |
| CalendarGrid.MonthGridFlags | CalendarGrid.tsx:110-114 | the month fits the grid, and the flagged cells are exactly positions `startDay` up to `startDay + daysInMonth` |
| CalendarGrid.FilterConsecutive | CalendarGrid.tsx:110-114 | filtering a run of consecutive days by a flag that holds on one block gives that block's days |
| CalendarGrid.MonthGridFiltered | CalendarGrid.tsx:110-114 | the cells flagged current are exactly the days of the anchor's month in the constructor's full year, in order |
| CalendarGrid.February2024Grid | CalendarGrid.tsx:24-34 | February 2024 starts on a Thursday and has 29 days, so cells 4 to 32 are flagged |
| CalendarGrid.February2024Start | CalendarGrid.tsx:25 | February 1, 2024 is day 19754 after 1970-01-01, and 2024 is a leap year |
| CalendarGrid.CellTasks | CalendarGrid.tsx:101 | a cell shows exactly the tasks whose date is its key, in store order |
| CalendarGrid.CellsDisjoint | CalendarGrid.tsx:101 | no task shows in two different cells |
| CalendarGrid.Cell | CalendarGrid.tsx:36-41 | the props of one cell: its date, its current-month flag and its tasks (the drop callback is the store method) |
| CalendarGrid.Grid | CalendarGrid.tsx:89-124 | what `renderGrid` shows: the day view of one date, or a list of cells |
| CalendarGrid.MakeCells | CalendarGrid.tsx:96-103 | one cell per date, in order, each with its flag and its tasks |
| CalendarGrid.RenderGrid | CalendarGrid.tsx:89-124 | day mode hands the anchor to the day view; week has 7 cells and month 42, each with its tasks and its month flag |
| CalendarGrid.RenderWeekDates | CalendarGrid.tsx:94-104 | the week cells are seven days from the Sunday of the anchor's week |
| CalendarGrid.RenderMonthDates | CalendarGrid.tsx:108-118 | the month cells run from a Sunday, with the first of the month at its weekday |
| CalendarGrid.DropOnCell | CalendarGrid.tsx:85-87 | a drop on a cell sets the task's date to the cell's key and clears its hour |
| CalendarGrid.DroppedTaskShowsInCell | CalendarGrid.tsx:85-87 | after the drop, the task shows in that cell, with no hour |
| DayView.IsScheduled | DayView.tsx:19 | a task counts as scheduled when its `scheduledTime` is truthy |
| DayView.HourText | DayView.tsx:58 | `hour.toString().padStart(2, '0')` |
| DayView.SlotTime | DayView.tsx:62 | the time a slot drop writes: the hour text followed by `:00` |
| DayView.InSlot | DayView.tsx:58 | a slot's filter: the task's time is present and its part before the first `:` is the slot's hour text |
| DayView.Hours | DayView.tsx:8 | the hours 0 to 23, in order |
| DayView.DayTasks | DayView.tsx:11-13 | the day's tasks are those whose date is the day's key |
| DayView.Unscheduled | DayView.tsx:18 | only tasks with a falsy `scheduledTime` |
| DayView.Scheduled | DayView.tsx:19 | only tasks with a truthy `scheduledTime` |
| DayView.SchedulePartition | DayView.tsx:18-19 | every task of the day is in exactly one of the two lists, which together are the day's tasks as a multiset |
| DayView.HourTextShape | DayView.tsx:58 | the day's hour texts are two digits and tell the hours apart |
| DayView.SlotTasks | DayView.tsx:57-59 | a slot shows exactly the scheduled tasks whose time's hour part is the slot's hour text |
| DayView.SlotsDisjoint | DayView.tsx:57-59 | no task shows in two slots |
| DayView.SlotTimeHead | DayView.tsx:62 | the hour part of the time a slot drop writes is the slot's hour text |
| DayView.SlotTimeInSlot | DayView.tsx:57-62 | the time a slot drop writes makes the task scheduled, in that slot and in no other |
| DayView.DropOnUnscheduled | DayView.tsx:21-23 | the task moves to the day and loses its hour |
| DayView.DropOnSlot | DayView.tsx:60-63 | the task moves to the day, then gets the slot's `hh:00` |
| DayView.DroppedTaskIsUnscheduled | DayView.tsx:21-23 | after the drop, the task shows in the day's unscheduled pane |
| DayView.DroppedTaskIsInSlot | DayView.tsx:60-63 | after a slot drop, the task shows in that slot of the day and in no other |
| CalendarHeader.ViewModeLabel | CalendarHeader.tsx:6-10 | `viewModeLabels`: `Day`, `Week`, `Month` |
| CalendarHeader.ViewModes | CalendarHeader.tsx:79 | `Object.keys(viewModeLabels)`: day, week, month, in declaration order |
| CalendarHeader.ModeButtons | CalendarHeader.tsx:6-10 | three buttons, one per mode, with labels that tell the modes apart |
| CalendarHeader.Previous | CalendarHeader.tsx:20-34 | one day back, seven days back on the same weekday, or `setMonth(getMonth() - 1)` |
| CalendarHeader.Next | CalendarHeader.tsx:36-50 | one day on, seven days on on the same weekday, or `setMonth(getMonth() + 1)` |
| CalendarHeader.DayWeekRoundTrip | CalendarHeader.tsx:20-50 | in day and week mode, next undoes previous and previous undoes next |
| CalendarHeader.MonthShiftKeepsDay | CalendarHeader.tsx:30 | a month step keeps the day of the month when the target month is long enough |
| CalendarHeader.MonthShiftRollsOver | CalendarHeader.tsx:46 | when the target month is too short, the step lands in the month after it, by the excess days |
| CalendarHeader.MonthRoundTripWhenDayExists | CalendarHeader.tsx:20-50 | in month mode, next undoes previous whenever the day exists in the previous month |
| CalendarHeader.MonthRoundTripWhenDayMissing | CalendarHeader.tsx:20-50 | when the day does not exist in the previous month, previous then next ends on a smaller day of the month, so not on the start |
| CalendarHeader.MonthRoundTrip | CalendarHeader.tsx:20-50 | in month mode, next undoes previous if and only if the day of the month exists in the previous month |
| CalendarHeader.MakeDayMonthRoundTrip | CalendarHeader.tsx:30 | stepping a month back with `setMonth(m - 1)`, when the day exists there, lands on day d of the previous month, and a month on from there is day d of month m again |
| CalendarHeader.MonthIndexRoundTrip | CalendarHeader.tsx:46 | one month forward from the month before m is month m again, across the year boundary |
| CalendarHeader.SetMonthRoundTrip | CalendarHeader.tsx:46 | `setMonth(getMonth() + 1)` after a month step back lands on the starting date |
| CalendarHeader.PreviousFromMarch31 | CalendarHeader.tsx:30 | in a common year, a month back from March 31 is March 3 (February 31 rolls over) |
| CalendarHeader.NextFromMarch3 | CalendarHeader.tsx:46 | a month on from March 3 is April 3 |
| CalendarHeader.MonthNavigationFromMarch31 | CalendarHeader.tsx:20-50 | a concrete case where the month round trip fails: in a common year March 31 goes back to March 3 and on to April 3 |
| CalendarHeader.HandlePrevious | CalendarHeader.tsx:20-34 | writes `Previous` of the anchor, and nothing else |
| CalendarHeader.HandleNext | CalendarHeader.tsx:36-50 | writes `Next` of the anchor, and nothing else |
| CalendarHeader.HandleToday | CalendarHeader.tsx:112-113 | the Today button writes the clock's day as the anchor, and nothing else |
| CalendarHeader.SelectMode | CalendarHeader.tsx:79-82 | a mode button sets the view mode, and nothing else |
| CalendarHeader.WeekRange | CalendarHeader.tsx:62-66 | the range runs from the Sunday of the anchor's week to six days later, equals the week view's first and last cells, and contains the anchor |
| TaskTypeCard.InBacklog | TaskTypeCard.tsx:16 | the card's filter: the task is in the card's category and its date is falsy |
| TaskTypeCard.Card | TaskTypeCard.tsx:11-14 | a card's state: its category, the task input and the delete confirmation flag |
| TaskTypeCard.Backlog | TaskTypeCard.tsx:15-17 | the card lists exactly the category's tasks with a falsy date, in store order |
| TaskTypeCard.DatedTaskLeavesBacklog | TaskTypeCard.tsx:15-17 | a task given a date leaves every backlog |
| TaskTypeCard.NewTaskJoinsBacklog | TaskTypeCard.tsx:19-25 | a new undated task appears at the end of its category's backlog |
| TaskTypeCard.SubmitTask | TaskTypeCard.tsx:19-25 | blank input adds nothing; otherwise the trimmed title is added under the category and the input clears |
| TaskTypeCard.Card.constructor | TaskTypeCard.tsx:12-13 | a new card has an empty input and no delete confirmation |
| TaskTypeCard.Card.SetTitle | TaskTypeCard.tsx:80 | typing replaces the input text |
| TaskTypeCard.Card.HandleSubmit | TaskTypeCard.tsx:19-25 | with a non-empty category id, a task is added exactly when the title is not blank; it is trimmed and the input clears |
| TaskTypeCard.Card.RequestDelete | TaskTypeCard.tsx:45 | the trash button opens the confirmation |
| TaskTypeCard.Card.CancelDelete | TaskTypeCard.tsx:66-67 | cancel closes the confirmation |
| TaskTypeCard.Card.HandleDelete | TaskTypeCard.tsx:27-30 | the category and all its tasks are removed, and the confirmation closes |
| TaskPanel.Panel | TaskPanel.tsx:7-11 | the panel's state: `isResizing`, the category input, the form flag, and the captured flag of each registered move listener |
| TaskPanel.PanelCard | TaskPanel.tsx:105-107 | the panel's own card: its category and the task input |
| TaskPanel.ClampWidth | TaskPanel.tsx:22 | the width lies in 300 to 600, passes through inside that range and saturates outside it |
| TaskPanel.ClampMonotone | TaskPanel.tsx:22 | a wider drag never gives a narrower panel |
| TaskPanel.ListenersWidth | TaskPanel.tsx:19-24 | a document move resizes only through a listener whose captured flag is set; with none set, the width stays |
| TaskPanel.StaleListenerKeepsWidth | TaskPanel.tsx:13-24 | the listener registered at mouse-down from rest never resizes: 1000-pixel window, pointer at 500, width stays 400 |
| TaskPanel.Panel.constructor | TaskPanel.tsx:9-11 | a new panel is not resizing, its form is closed and empty, and no listener is registered |
| TaskPanel.Panel.HandleMouseDown | TaskPanel.tsx:13-17 | sets `isResizing` and registers a listener holding the previous `isResizing` |
| TaskPanel.Panel.DocumentMouseMove | TaskPanel.tsx:19-24 | the registered listeners run with their captured flags |
| TaskPanel.Panel.HandleMouseMove | TaskPanel.tsx:19-24 | while resizing, the width becomes the clamped distance to the window's right edge; otherwise it is unchanged |
| TaskPanel.Panel.HandleMouseUp | TaskPanel.tsx:26-30 | clears `isResizing` and removes the listeners |
| TaskPanel.Panel.ShowForm | TaskPanel.tsx:57 | the plus button opens the form |
| TaskPanel.Panel.CancelForm | TaskPanel.tsx:82 | cancel closes the form and keeps the typed name |
| TaskPanel.Panel.SetNewTypeName | TaskPanel.tsx:69 | typing replaces the category name |
| TaskPanel.Panel.HandleAddType | TaskPanel.tsx:32-40 | a name that is not blank adds a category with the trimmed name, then the input clears and the form closes; a blank name changes nothing |
| TaskPanel.PanelCard.constructor | TaskPanel.tsx:106 | a new card starts with an empty input |
| TaskPanel.PanelCard.SetTitle | TaskPanel.tsx:136 | typing replaces the input text |
| TaskPanel.PanelCard.HandleSubmit | TaskPanel.tsx:112-118 | the panel's own card adds a task as the main card does |

## Left out

- Time of day, time zones and daylight saving are not modelled. A `Date` is a whole
  day number, and its key is taken to be its own local date. In the source the key is
  the UTC date `toISOString` prints, which can differ from the local date the grid
  computes, in both directions:
  - Month cells are built at local midnight, so east of UTC their keys are one day
    behind.
  - Week cells and the day view copy the anchor's time of day
    (`new Date(date)`, CalendarGrid.tsx:15). So west of UTC, an evening anchor gives
    keys one day ahead.
  - For the same local date, a week cell and a month cell can therefore carry
    different keys.
- Invalid dates (`NaN`) and years outside the range of `Date` are not modelled.
- Pixel values are whole numbers. `window.innerWidth`, `clientX` and the widths are
  integers here, while the source computes with JavaScript numbers. The clamp's
  properties do not depend on this.
- Locale formatting is not modelled, because its output depends on the runtime's
  locale data. This covers `toLocaleDateString` and `toLocaleTimeString` in the
  header, the cells and the hour labels.
- The wall clock is a parameter wherever the source reads it with `new Date()`:
  - the initial anchor is the `today` parameter of `Store.TaskStore`'s constructor;
  - the Today button is `CalendarHeader.HandleToday`, which takes the clock's day;
  - the `isToday` test of a cell (CalendarGrid.tsx:45) is `CalendarGrid.IsToday`,
    which compares the cell with the clock's day. The blue highlighting it selects
    is styling and is not modelled.
- `crypto.randomUUID` is a parameter with a freshness precondition.
- The random colour of a new category is a parameter. The model does not capture
  its hexadecimal format, which has no leading zeros.
- React rendering, the react-dnd plumbing (drag sources, `isOver` and `isDragging`),
  styling, and zustand's subscription mechanics are not modelled. Only the state
  changes and the lists the components show are.
- `DayColumn.tsx`, `TaskBlock.tsx` and `TaskInput.tsx` are not part of this model.
  The same goes for `App.tsx`, the panel's local `TaskBlock` (lines 151-178) and the
  build configuration.
- Strings are sequences of code points, not UTF-16 code units. Only the
  ECMAScript whitespace set of `trim` is modelled.
- TaskTypeCard.Card.HandleSubmit: the result is stated only for a non-empty category
  id. With an empty id the store's fallback to the first category applies, and
  `SubmitTask` states that case through `ResolveTypeId`.
- TaskPanel.PanelCard.HandleSubmit: the same restriction to a non-empty category id
  applies.
- Listener removal is modelled as removing every listener on mouse-up. The source
  removes the pair registered with the mouse-up listener that fires.

## Findings

| source | as written | input that shows it | evidently intended | confidence | as-written member | corrected member |
|---|---|---|---|---|---|---|
| TaskPanel.tsx:13-24 | `handleMouseDown` registers the current render's `handleMouseMove`, whose closure holds the `isResizing` of that render: `false`, because `setIsResizing(true)` only takes effect in the next render. The listener's `if (isResizing)` therefore never passes. | From rest, mouse-down on the handle, then a move to `clientX` 500 in a 1000-pixel window: the panel stays 400 wide instead of becoming 500. | While the handle is held, each move sets the width to the clamped distance from the pointer to the window's right edge. | not executed; high | TaskPanel.StaleListenerKeepsWidth | TaskPanel.Panel.HandleMouseMove |
