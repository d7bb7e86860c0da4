/** `useTaskStore` of `store.ts`: the task list, the category list, the view mode, the
  * anchor date and the panel width, and the mutations that rewrite them. */
module Store {
  import opened Wrappers
  import opened Seqs
  import opened Types
  import CivilDate

  /** The categories present at start-up, in this order. */
  function SeedTaskTypes(): seq<TaskType> {
    [ TaskType("work", "Work", "#3b82f6"),
      TaskType("study", "Study", "#10b981"),
      TaskType("personal", "Personal", "#8b5cf6") ]
  }

  /** The width of the category panel at start-up. */
  const InitialPanelWidth := 400

  predicate HasTask(ts: seq<Task>, id: string) {
    exists i :: 0 <= i < |ts| && ts[i].id == id
  }

  predicate HasType(types: seq<TaskType>, id: string) {
    exists i :: 0 <= i < |types| && types[i].id == id
  }

  /** Some task is filed under category `id`. */
  predicate HasTaskOfType(ts: seq<Task>, id: string) {
    exists i :: 0 <= i < |ts| && ts[i].typeId == id
  }

  ghost predicate DistinctTaskIds(ts: seq<Task>) {
    DistinctBy(ts, (t: Task) => t.id)
  }

  ghost predicate DistinctTypeIds(types: seq<TaskType>) {
    DistinctBy(types, (t: TaskType) => t.id)
  }

  /** Every task is filed under a category that exists. */
  predicate ReferencesValid(ts: seq<Task>, types: seq<TaskType>) {
    forall i :: 0 <= i < |ts| ==> HasType(types, ts[i].typeId)
  }

  /** `typeId || state.taskTypes[0].id`: a non-empty argument wins, otherwise the first
    * category's id; `None` where the source reads `.id` of `undefined` and throws. */
  function ResolveTypeId(typeId: Option<string>, types: seq<TaskType>): (r: Option<string>)
    ensures r.None? <==> !Truthy(typeId) && types == []
    ensures Truthy(typeId) ==> r == typeId
    ensures !Truthy(typeId) && types != [] ==> r == Some(types[0].id)
  {
    if Truthy(typeId) then typeId
    else if types != [] then Some(types[0].id)
    else None
  }

  /** The record `addTask` appends: no date, not completed, no scheduled time. */
  function NewTask(id: string, title: string, typeId: string): (t: Task)
    ensures t.id == id && t.title == title && t.typeId == typeId
    ensures t.date.None? && !t.completed && t.scheduledTime.None?
  {
    Task(id, title, None, typeId, false, None)
  }

  /** `categories.filter(type => type.id !== id)`. */
  function TypesWithout(types: seq<TaskType>, id: string): seq<TaskType> {
    Filter(types, (t: TaskType) => t.id != id)
  }

  /** `tasks.filter(task => task.typeId !== id)`. */
  function TasksWithoutType(ts: seq<Task>, id: string): seq<Task> {
    Filter(ts, (t: Task) => t.typeId != id)
  }

  /** `tasks.map(task => task.id === id ? f(task) : task)`. */
  function Rewrite(ts: seq<Task>, id: string, f: Task -> Task): (r: seq<Task>)
    ensures |r| == |ts|
    ensures forall i :: 0 <= i < |ts| ==> r[i] == if ts[i].id == id then f(ts[i]) else ts[i]
  {
    if ts == [] then []
    else [if ts[0].id == id then f(ts[0]) else ts[0]] + Rewrite(ts[1..], id, f)
  }

  /** The new task list of `updateTaskDate(id, d)`: the matching task gets date `d` and
    * loses its scheduled time; nothing else changes. */
  function WithDate(ts: seq<Task>, id: string, d: Option<string>): (r: seq<Task>)
    ensures |r| == |ts|
    ensures forall i :: 0 <= i < |ts| && ts[i].id != id ==> r[i] == ts[i]
    ensures forall i :: 0 <= i < |ts| && ts[i].id == id ==>
      r[i].date == d && r[i].scheduledTime.None?
      && r[i].id == id && r[i].title == ts[i].title && r[i].typeId == ts[i].typeId
      && r[i].completed == ts[i].completed
  {
    Rewrite(ts, id, (t: Task) => t.(date := d, scheduledTime := None))
  }

  /** The new task list of `updateTaskSchedule(id, time)`: only the matching task's
    * scheduled time changes. */
  function WithSchedule(ts: seq<Task>, id: string, time: Option<string>): (r: seq<Task>)
    ensures |r| == |ts|
    ensures forall i :: 0 <= i < |ts| && ts[i].id != id ==> r[i] == ts[i]
    ensures forall i :: 0 <= i < |ts| && ts[i].id == id ==>
      r[i].scheduledTime == time
      && r[i].id == id && r[i].title == ts[i].title && r[i].typeId == ts[i].typeId
      && r[i].completed == ts[i].completed && r[i].date == ts[i].date
  {
    Rewrite(ts, id, (t: Task) => t.(scheduledTime := time))
  }

  /** The new task list of `toggleTaskComplete(id)`: only the matching task's
    * `completed` flips. */
  function WithToggled(ts: seq<Task>, id: string): (r: seq<Task>)
    ensures |r| == |ts|
    ensures forall i :: 0 <= i < |ts| && ts[i].id != id ==> r[i] == ts[i]
    ensures forall i :: 0 <= i < |ts| && ts[i].id == id ==>
      r[i].completed == !ts[i].completed
      && r[i].id == id && r[i].title == ts[i].title && r[i].typeId == ts[i].typeId
      && r[i].date == ts[i].date && r[i].scheduledTime == ts[i].scheduledTime
  {
    Rewrite(ts, id, (t: Task) => t.(completed := !t.completed))
  }

  /** Appending a task with a fresh id keeps task ids distinct. */
  lemma AppendKeepsIdsDistinct(ts: seq<Task>, t: Task)
    requires DistinctTaskIds(ts) && !HasTask(ts, t.id)
    ensures DistinctTaskIds(ts + [t])
  {
    var r := ts + [t];
    forall i, j | 0 <= i < j < |r| ensures r[i].id != r[j].id {
      if j == |ts| {
        assert r[i] == ts[i];
      } else {
        assert r[i] == ts[i] && r[j] == ts[j];
      }
    }
  }

  /** The three rewrites keep every id in place, hence distinct ids stay distinct. */
  lemma RewritesKeepIds(ts: seq<Task>, id: string, d: Option<string>, time: Option<string>)
    requires DistinctTaskIds(ts)
    ensures DistinctTaskIds(WithDate(ts, id, d))
    ensures DistinctTaskIds(WithSchedule(ts, id, time))
    ensures DistinctTaskIds(WithToggled(ts, id))
  {
    var a, b, c := WithDate(ts, id, d), WithSchedule(ts, id, time), WithToggled(ts, id);
    assert forall i :: 0 <= i < |ts| ==> a[i].id == ts[i].id && b[i].id == ts[i].id && c[i].id == ts[i].id;
  }

  /** Cascade delete: afterwards no category has the id and no task is filed under it;
    * everything else survives in its original order, with ids still distinct. */
  lemma DeleteTaskTypeCascade(ts: seq<Task>, types: seq<TaskType>, id: string)
    requires DistinctTaskIds(ts) && DistinctTypeIds(types)
    ensures !HasType(TypesWithout(types, id), id)
    ensures !HasTaskOfType(TasksWithoutType(ts, id), id)
    ensures Subsequence(TypesWithout(types, id), types) && Subsequence(TasksWithoutType(ts, id), ts)
    ensures forall i :: 0 <= i < |types| && types[i].id != id ==> types[i] in TypesWithout(types, id)
    ensures forall i :: 0 <= i < |ts| && ts[i].typeId != id ==> ts[i] in TasksWithoutType(ts, id)
    ensures DistinctTaskIds(TasksWithoutType(ts, id)) && DistinctTypeIds(TypesWithout(types, id))
  {
    var types', ts' := TypesWithout(types, id), TasksWithoutType(ts, id);
    FilterMembers(types, (t: TaskType) => t.id != id);
    FilterMembers(ts, (t: Task) => t.typeId != id);
    SubsequenceDistinct(ts', ts, (t: Task) => t.id);
    SubsequenceDistinct(types', types, (t: TaskType) => t.id);
  }

  /** Deleting a category that does not exist changes nothing, as long as no task
    * refers to it (which `ReferencesValid` guarantees). */
  lemma DeleteUnknownTypeIsNoop(ts: seq<Task>, types: seq<TaskType>, id: string)
    requires ReferencesValid(ts, types) && !HasType(types, id)
    ensures TypesWithout(types, id) == types
    ensures TasksWithoutType(ts, id) == ts
  {
    forall i | 0 <= i < |ts| ensures ts[i].typeId != id {
      assert HasType(types, ts[i].typeId);
    }
  }

  /** Because deletion cascades, it never leaves a task filed under a missing category. */
  lemma DeleteKeepsReferences(ts: seq<Task>, types: seq<TaskType>, id: string)
    requires ReferencesValid(ts, types)
    ensures ReferencesValid(TasksWithoutType(ts, id), TypesWithout(types, id))
  {
    var ts', types' := TasksWithoutType(ts, id), TypesWithout(types, id);
    FilterMembers(types, (t: TaskType) => t.id != id);
    FilterMembers(ts, (t: Task) => t.typeId != id);
    forall i | 0 <= i < |ts'| ensures HasType(types', ts'[i].typeId) {
      var t := ts'[i];
      assert t in ts && t.typeId != id;
      var k :| 0 <= k < |ts| && ts[k] == t;
      var j :| 0 <= j < |types| && types[j].id == t.typeId;
      assert types[j] in types';
      var j' :| 0 <= j' < |types'| && types'[j'] == types[j];
    }
  }

  /** A task added under an existing category (or the default one) keeps all references valid. */
  lemma AddTaskKeepsReferences(ts: seq<Task>, types: seq<TaskType>, t: Task)
    requires ReferencesValid(ts, types) && HasType(types, t.typeId)
    ensures ReferencesValid(ts + [t], types)
  {
    var r := ts + [t];
    forall i | 0 <= i < |r| ensures HasType(types, r[i].typeId) {
      if i < |ts| {
        assert r[i] == ts[i];
      }
    }
  }

  /** The default category of `addTask` exists. */
  lemma DefaultTypeExists(types: seq<TaskType>)
    requires types != []
    ensures HasType(types, ResolveTypeId(None, types).value)
  {
    assert types[0].id == ResolveTypeId(None, types).value;
  }

  /** An id no task has: all three rewrites leave the list as it was. */
  lemma UnknownTaskIdIsNoop(ts: seq<Task>, id: string, d: Option<string>, time: Option<string>)
    requires !HasTask(ts, id)
    ensures WithDate(ts, id, d) == ts
    ensures WithSchedule(ts, id, time) == ts
    ensures WithToggled(ts, id) == ts
  {
    assert forall i :: 0 <= i < |ts| ==> ts[i].id != id;
  }

  /** Toggling twice restores the list. */
  lemma ToggleTwice(ts: seq<Task>, id: string)
    ensures WithToggled(WithToggled(ts, id), id) == ts
  {
    var once := WithToggled(ts, id);
    var twice := WithToggled(once, id);
    forall i | 0 <= i < |ts| ensures twice[i] == ts[i] {
      assert once[i].id == ts[i].id;
    }
  }

  /** Setting the same date again changes nothing more. */
  lemma WithDateIdempotent(ts: seq<Task>, id: string, d: Option<string>)
    ensures WithDate(WithDate(ts, id, d), id, d) == WithDate(ts, id, d)
  {
    var once := WithDate(ts, id, d);
    var twice := WithDate(once, id, d);
    forall i | 0 <= i < |ts| ensures twice[i] == once[i] {
      assert once[i].id == ts[i].id;
    }
  }

  /** The hour-slot protocol: `updateTaskDate` then `updateTaskSchedule` leaves the
    * task with both the new date and the new time, and every other task as it was. */
  lemma DateThenSchedule(ts: seq<Task>, id: string, d: Option<string>, time: Option<string>)
    ensures var r := WithSchedule(WithDate(ts, id, d), id, time);
      |r| == |ts|
      && (forall i :: 0 <= i < |ts| && ts[i].id != id ==> r[i] == ts[i])
      && (forall i :: 0 <= i < |ts| && ts[i].id == id ==>
            r[i] == ts[i].(date := d, scheduledTime := time))
  {
    var a := WithDate(ts, id, d);
    var r := WithSchedule(a, id, time);
    forall i | 0 <= i < |ts| && ts[i].id == id ensures r[i] == ts[i].(date := d, scheduledTime := time) {
      assert a[i].id == id;
    }
  }

  /** The store's state. The ids of tasks and of categories stay distinct because every
    * new id is fresh (the source draws them from `crypto.randomUUID`). */
  class TaskStore {
    var tasks: seq<Task>
    var taskTypes: seq<TaskType>
    var viewMode: ViewMode
    var currentDate: CivilDate.Day
    var rightPanelWidth: int

    ghost predicate Valid()
      reads this
    {
      DistinctTaskIds(tasks) && DistinctTypeIds(taskTypes)
    }

    /** An id that no task, category or task reference uses yet. */
    predicate FreshId(id: string)
      reads this
    {
      !HasTask(tasks, id) && !HasType(taskTypes, id) && !HasTaskOfType(tasks, id)
    }

    /** The initial state; `today` stands for `new Date()`. */
    constructor (today: CivilDate.Day)
      ensures Valid()
      ensures tasks == [] && taskTypes == SeedTaskTypes() && viewMode == Week
      ensures currentDate == today && rightPanelWidth == InitialPanelWidth
    {
      tasks := [];
      taskTypes := SeedTaskTypes();
      viewMode := Week;
      currentDate := today;
      rightPanelWidth := InitialPanelWidth;
    }

    /** `addTask(title, typeId)`; `newId` stands for `crypto.randomUUID()`. `ok` is false
      * where the source throws (no `typeId` and no category), and then nothing changes. */
    method AddTask(newId: string, title: string, typeId: Option<string>) returns (ok: bool)
      requires Valid() && FreshId(newId)
      modifies this
      ensures Valid()
      ensures ok <==> ResolveTypeId(typeId, old(taskTypes)).Some?
      ensures ok ==> tasks == old(tasks) + [NewTask(newId, title, ResolveTypeId(typeId, old(taskTypes)).value)]
      ensures !ok ==> tasks == old(tasks)
      ensures taskTypes == old(taskTypes) && viewMode == old(viewMode)
      ensures currentDate == old(currentDate) && rightPanelWidth == old(rightPanelWidth)
    {
      var resolved := ResolveTypeId(typeId, taskTypes);
      if resolved.None? {
        ok := false;
        return;
      }
      var t := NewTask(newId, title, resolved.value);
      AppendKeepsIdsDistinct(tasks, t);
      tasks := tasks + [t];
      ok := true;
    }

    /** `addTaskType(name, color)`; `newId` stands for `crypto.randomUUID()`. Names and
      * colours need not be unique. */
    method AddTaskType(newId: string, name: string, color: string)
      requires Valid() && FreshId(newId)
      modifies this
      ensures Valid()
      ensures taskTypes == old(taskTypes) + [TaskType(newId, name, color)]
      ensures tasks == old(tasks) && viewMode == old(viewMode)
      ensures currentDate == old(currentDate) && rightPanelWidth == old(rightPanelWidth)
    {
      var t := TaskType(newId, name, color);
      forall i, j | 0 <= i < j < |taskTypes| + 1 ensures (taskTypes + [t])[i].id != (taskTypes + [t])[j].id {
        assert (taskTypes + [t])[i] == taskTypes[i];
      }
      taskTypes := taskTypes + [t];
    }

    /** `deleteTaskType(id)`: the category and every task filed under it go in one step. */
    method DeleteTaskType(id: string)
      requires Valid()
      modifies this
      ensures Valid()
      ensures taskTypes == TypesWithout(old(taskTypes), id)
      ensures tasks == TasksWithoutType(old(tasks), id)
      ensures viewMode == old(viewMode)
      ensures currentDate == old(currentDate) && rightPanelWidth == old(rightPanelWidth)
    {
      DeleteTaskTypeCascade(tasks, taskTypes, id);
      taskTypes := TypesWithout(taskTypes, id);
      tasks := TasksWithoutType(tasks, id);
    }

    /** `updateTaskDate(taskId, date)`. */
    method UpdateTaskDate(taskId: string, date: Option<string>)
      requires Valid()
      modifies this
      ensures Valid()
      ensures tasks == WithDate(old(tasks), taskId, date)
      ensures taskTypes == old(taskTypes) && viewMode == old(viewMode)
      ensures currentDate == old(currentDate) && rightPanelWidth == old(rightPanelWidth)
    {
      RewritesKeepIds(tasks, taskId, date, None);
      tasks := WithDate(tasks, taskId, date);
    }

    /** `updateTaskSchedule(taskId, time)`. */
    method UpdateTaskSchedule(taskId: string, time: Option<string>)
      requires Valid()
      modifies this
      ensures Valid()
      ensures tasks == WithSchedule(old(tasks), taskId, time)
      ensures taskTypes == old(taskTypes) && viewMode == old(viewMode)
      ensures currentDate == old(currentDate) && rightPanelWidth == old(rightPanelWidth)
    {
      RewritesKeepIds(tasks, taskId, None, time);
      tasks := WithSchedule(tasks, taskId, time);
    }

    /** `toggleTaskComplete(taskId)`. */
    method ToggleTaskComplete(taskId: string)
      requires Valid()
      modifies this
      ensures Valid()
      ensures tasks == WithToggled(old(tasks), taskId)
      ensures taskTypes == old(taskTypes) && viewMode == old(viewMode)
      ensures currentDate == old(currentDate) && rightPanelWidth == old(rightPanelWidth)
    {
      RewritesKeepIds(tasks, taskId, None, None);
      tasks := WithToggled(tasks, taskId);
    }

    /** `setViewMode(mode)`. */
    method SetViewMode(mode: ViewMode)
      modifies this`viewMode
      ensures viewMode == mode
    {
      viewMode := mode;
    }

    /** `setCurrentDate(date)`: any date is accepted. */
    method SetCurrentDate(date: CivilDate.Day)
      modifies this`currentDate
      ensures currentDate == date
    {
      currentDate := date;
    }

    /** `setRightPanelWidth(width)`: any width is accepted. */
    method SetRightPanelWidth(width: int)
      modifies this`rightPanelWidth
      ensures rightPanelWidth == width
    {
      rightPanelWidth := width;
    }
  }
}
