/** `DayView.tsx`: one day's tasks split into an unscheduled pane and 24 hour slots,
  * and the drops that move a task into either. */
module DayView {
  import opened Wrappers
  import opened Seqs
  import opened Text
  import opened Types
  import opened CivilDate
  import opened IsoKey
  import Store
  import CalendarGrid

  /** `HOURS`: the hours 0 to 23, in order. */
  function Hours(): (r: seq<int>)
    ensures |r| == 24 && forall i :: 0 <= i < 24 ==> r[i] == i
  {
    seq(24, i => i)
  }

  /** The view's tasks: those whose date key is the day's (the store selector's filter,
    * the same one a calendar cell applies). */
  function DayTasks(ts: seq<Task>, d: Day): (r: seq<Task>)
    ensures forall i :: 0 <= i < |r| ==> r[i] in ts && r[i].date == Some(Key(d))
    ensures forall i :: 0 <= i < |ts| && ts[i].date == Some(Key(d)) ==> ts[i] in r
    ensures Subsequence(r, ts) && |r| == CountWhere(ts, (t: Task) => t.date == Some(Key(d)))
  {
    CalendarGrid.CellTasks(ts, d)
  }

  /** A task counts as scheduled when its `scheduledTime` is truthy. */
  predicate IsScheduled(t: Task) {
    Truthy(t.scheduledTime)
  }

  /** `tasks.filter(task => !task.scheduledTime)`. */
  function Unscheduled(ts: seq<Task>): (r: seq<Task>)
    ensures forall i :: 0 <= i < |r| ==> !IsScheduled(r[i])
  {
    Filter(ts, (t: Task) => !IsScheduled(t))
  }

  /** `tasks.filter(task => task.scheduledTime)`. */
  function Scheduled(ts: seq<Task>): (r: seq<Task>)
    ensures forall i :: 0 <= i < |r| ==> IsScheduled(r[i])
  {
    Filter(ts, IsScheduled)
  }

  /** Every task of the day is in exactly one of the two lists: together they hold the
    * day's tasks, each as often as it occurs. */
  lemma SchedulePartition(ts: seq<Task>)
    ensures multiset(Unscheduled(ts)) + multiset(Scheduled(ts)) == multiset(ts)
    ensures forall i :: 0 <= i < |ts| ==> (ts[i] in Unscheduled(ts) <==> !IsScheduled(ts[i]))
    ensures forall i :: 0 <= i < |ts| ==> (ts[i] in Scheduled(ts) <==> IsScheduled(ts[i]))
  {
    FilterSplit(ts, IsScheduled, (t: Task) => !IsScheduled(t));
    FilterMembers(ts, IsScheduled);
    FilterMembers(ts, (t: Task) => !IsScheduled(t));
  }

  /** `hour.toString().padStart(2, '0')`. */
  function HourText(h: nat): string {
    ZeroPadded(h, 2)
  }

  /** The hour texts of the day are two digits each and tell the hours apart. */
  lemma HourTextShape(h: nat, k: nat)
    requires h < 24
    ensures |HourText(h)| == 2 && IsDigit(HourText(h)[0]) && IsDigit(HourText(h)[1])
    ensures HourText(h) == HourText(k) <==> h == k
  {
    ZeroPaddedLength(h, 2);
    ZeroPaddedInjective(h, k, 2);
  }

  /** The time a drop on slot `h` writes: `${hh}:00`. */
  function SlotTime(h: nat): string {
    HourText(h) + ":00"
  }

  /** The filter of slot `h`: `task.scheduledTime?.split(':')[0] === hh`. */
  predicate InSlot(t: Task, h: nat) {
    t.scheduledTime.Some? && SplitHead(t.scheduledTime.value, ':') == HourText(h)
  }

  /** The tasks slot `h` shows, taken from the scheduled ones. */
  function SlotTasks(scheduled: seq<Task>, h: nat): (r: seq<Task>)
    ensures forall i :: 0 <= i < |r| ==> r[i] in scheduled && InSlot(r[i], h)
    ensures forall i :: 0 <= i < |scheduled| && InSlot(scheduled[i], h) ==> scheduled[i] in r
    ensures Subsequence(r, scheduled) && |r| == CountWhere(scheduled, (t: Task) => InSlot(t, h))
  {
    FilterMembers(scheduled, (t: Task) => InSlot(t, h));
    Filter(scheduled, (t: Task) => InSlot(t, h))
  }

  /** No task shows in two slots. */
  lemma SlotsDisjoint(t: Task, h: nat, k: nat)
    requires InSlot(t, h) && InSlot(t, k)
    ensures h == k
  {
    ZeroPaddedInjective(h, k, 2);
  }

  /** The hour part of the time a drop on slot `h` writes is the slot's hour text. */
  lemma SlotTimeHead(h: nat)
    ensures SplitHead(SlotTime(h), ':') == HourText(h)
  {
    var x := HourText(h);
    assert ':' !in x by {
      forall i | 0 <= i < |x| ensures x[i] != ':' {
        assert IsDigit(x[i]);
      }
    }
    assert SlotTime(h) == x + [':'] + "00";
    SplitHeadOf(x, ':', "00");
  }

  /** The time a slot drop writes puts the task in that slot and in no other. */
  lemma SlotTimeInSlot(t: Task, h: nat, k: nat)
    requires t.scheduledTime == Some(SlotTime(h))
    ensures IsScheduled(t)
    ensures InSlot(t, k) <==> h == k
  {
    SlotTimeHead(h);
    ZeroPaddedInjective(h, k, 2);
  }

  /** `handleUnscheduledDrop`: the task moves to this day and loses its hour. */
  method DropOnUnscheduled(store: Store.TaskStore, taskId: string, d: Day)
    requires store.Valid()
    modifies store
    ensures store.Valid()
    ensures store.tasks == Store.WithDate(old(store.tasks), taskId, Some(Key(d)))
    ensures store.taskTypes == old(store.taskTypes) && store.viewMode == old(store.viewMode)
    ensures store.currentDate == old(store.currentDate)
    ensures store.rightPanelWidth == old(store.rightPanelWidth)
  {
    store.UpdateTaskDate(taskId, Some(Key(d)));
  }

  /** A slot's `onDrop`: the task moves to this day, then gets the slot's hour. */
  method DropOnSlot(store: Store.TaskStore, taskId: string, d: Day, h: nat)
    requires store.Valid()
    modifies store
    ensures store.Valid()
    ensures store.tasks
      == Store.WithSchedule(Store.WithDate(old(store.tasks), taskId, Some(Key(d))), taskId, Some(SlotTime(h)))
    ensures store.taskTypes == old(store.taskTypes) && store.viewMode == old(store.viewMode)
    ensures store.currentDate == old(store.currentDate)
    ensures store.rightPanelWidth == old(store.rightPanelWidth)
  {
    store.UpdateTaskDate(taskId, Some(Key(d)));
    store.UpdateTaskSchedule(taskId, Some(SlotTime(h)));
  }

  /** After a drop on the unscheduled pane, the task shows in that pane of the day. */
  lemma DroppedTaskIsUnscheduled(ts: seq<Task>, i: int, d: Day)
    requires 0 <= i < |ts|
    ensures var r := Store.WithDate(ts, ts[i].id, Some(Key(d)));
      r[i] in Unscheduled(DayTasks(r, d))
  {
    var r := Store.WithDate(ts, ts[i].id, Some(Key(d)));
    var day := DayTasks(r, d);
    var k :| 0 <= k < |day| && day[k] == r[i];
    FilterMembers(day, (t: Task) => !IsScheduled(t));
  }

  /** After a drop on slot `h`, the task shows in slot `h` of the day and in no other. */
  lemma DroppedTaskIsInSlot(ts: seq<Task>, i: int, d: Day, h: nat, k: nat)
    requires 0 <= i < |ts|
    ensures var r := Store.WithSchedule(Store.WithDate(ts, ts[i].id, Some(Key(d))), ts[i].id, Some(SlotTime(h)));
      r[i] in SlotTasks(Scheduled(DayTasks(r, d)), h)
      && (InSlot(r[i], k) <==> h == k)
  {
    var id := ts[i].id;
    Store.DateThenSchedule(ts, id, Some(Key(d)), Some(SlotTime(h)));
    var r := Store.WithSchedule(Store.WithDate(ts, id, Some(Key(d))), id, Some(SlotTime(h)));
    SlotTimeInSlot(r[i], h, k);
    SlotTimeInSlot(r[i], h, h);
    var day := DayTasks(r, d);
    var j :| 0 <= j < |day| && day[j] == r[i];
    FilterMembers(day, IsScheduled);
    var sched := Scheduled(day);
    var j' :| 0 <= j' < |sched| && sched[j'] == r[i];
  }
}
