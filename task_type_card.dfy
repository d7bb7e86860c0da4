/** `TaskTypeCard.tsx`: a category's card, with its backlog of undated tasks, the form
  * that adds a task under the category, and the two-step delete. */
module TaskTypeCard {
  import opened Wrappers
  import opened Seqs
  import opened Text
  import opened Types
  import Store

  /** `tasks.filter(task => task.typeId === type.id && !task.date)`. */
  predicate InBacklog(t: Task, typeId: string) {
    t.typeId == typeId && !Truthy(t.date)
  }

  /** The card's list: the category's undated tasks, in store order. */
  function Backlog(ts: seq<Task>, typeId: string): (r: seq<Task>)
    ensures Subsequence(r, ts)
    ensures forall i :: 0 <= i < |r| ==> r[i] in ts && r[i].typeId == typeId && !Truthy(r[i].date)
    ensures forall i :: 0 <= i < |ts| && InBacklog(ts[i], typeId) ==> ts[i] in r
    ensures |r| == CountWhere(ts, (t: Task) => InBacklog(t, typeId))
  {
    FilterMembers(ts, (t: Task) => InBacklog(t, typeId));
    Filter(ts, (t: Task) => InBacklog(t, typeId))
  }

  /** Once a task gets a date, it leaves its category's backlog. */
  lemma DatedTaskLeavesBacklog(ts: seq<Task>, i: int, d: string, typeId: string)
    requires 0 <= i < |ts| && d != ""
    ensures var r := Store.WithDate(ts, ts[i].id, Some(d));
      r[i] !in Backlog(r, typeId)
  {
  }

  /** A new task, undated, shows at the end of its category's backlog. */
  lemma NewTaskJoinsBacklog(ts: seq<Task>, id: string, title: string, typeId: string)
    ensures Backlog(ts + [Store.NewTask(id, title, typeId)], typeId)
      == Backlog(ts, typeId) + [Store.NewTask(id, title, typeId)]
  {
    var t := Store.NewTask(id, title, typeId);
    FilterConcat(ts, [t], (x: Task) => InBacklog(x, typeId));
    assert Filter([t], (x: Task) => InBacklog(x, typeId)) == [t];
  }

  /** The submit of a task form: a blank title adds nothing; otherwise the trimmed title
    * is added under `typeId` (`ok` false where `addTask` throws) and the input clears. */
  method SubmitTask(store: Store.TaskStore, newId: string, title: string, typeId: string)
    returns (added: bool, newTitle: string)
    requires store.Valid() && store.FreshId(newId)
    modifies store
    ensures store.Valid()
    ensures added <==> !AllWhitespace(title) && Store.ResolveTypeId(Some(typeId), old(store.taskTypes)).Some?
    ensures added ==> Store.ResolveTypeId(Some(typeId), old(store.taskTypes)).Some?
    ensures added ==>
      store.tasks == old(store.tasks) + [Store.NewTask(newId, Trim(title), Store.ResolveTypeId(Some(typeId), old(store.taskTypes)).value)]
    ensures added ==> newTitle == ""
    ensures !added ==> store.tasks == old(store.tasks) && newTitle == title
    ensures store.taskTypes == old(store.taskTypes) && store.viewMode == old(store.viewMode)
    ensures store.currentDate == old(store.currentDate)
    ensures store.rightPanelWidth == old(store.rightPanelWidth)
  {
    added, newTitle := false, title;
    var trimmed := TrimmedInput(title);
    if trimmed.Some? {
      added := store.AddTask(newId, trimmed.value, Some(typeId));
      if added {
        newTitle := "";
      }
    }
  }

  /** The card's own state: the task input and the delete confirmation. */
  class Card {
    const cardType: TaskType
    var title: string
    var showConfirmDelete: bool

    constructor (t: TaskType)
      ensures cardType == t && title == "" && !showConfirmDelete
    {
      cardType := t;
      title := "";
      showConfirmDelete := false;
    }

    /** The input's `onChange`. */
    method SetTitle(s: string)
      modifies this`title
      ensures title == s
    {
      title := s;
    }

    /** `handleSubmit`: a title that is not blank is added, trimmed, under the card's
      * category and the input clears; a blank title leaves everything as it was. */
    method HandleSubmit(store: Store.TaskStore, newId: string) returns (added: bool)
      requires store.Valid() && store.FreshId(newId)
      modifies store, this`title
      ensures store.Valid()
      ensures cardType.id != "" ==>
        (added <==> !AllWhitespace(old(title)))
      ensures added && cardType.id != "" ==>
        store.tasks == old(store.tasks) + [Store.NewTask(newId, Trim(old(title)), cardType.id)]
      ensures added ==> title == ""
      ensures !added ==> store.tasks == old(store.tasks) && title == old(title)
      ensures store.taskTypes == old(store.taskTypes) && store.viewMode == old(store.viewMode)
      ensures store.currentDate == old(store.currentDate)
      ensures store.rightPanelWidth == old(store.rightPanelWidth)
    {
      var newTitle;
      added, newTitle := SubmitTask(store, newId, title, cardType.id);
      title := newTitle;
    }

    /** The trash button: ask for confirmation. */
    method RequestDelete()
      modifies this`showConfirmDelete
      ensures showConfirmDelete
    {
      showConfirmDelete := true;
    }

    /** "Cancel": close the confirmation; nothing is deleted. */
    method CancelDelete()
      modifies this`showConfirmDelete
      ensures !showConfirmDelete
    {
      showConfirmDelete := false;
    }

    /** `handleDelete`, the confirmation's "Delete": the category and its tasks go, and
      * the confirmation closes. */
    method HandleDelete(store: Store.TaskStore)
      requires store.Valid()
      modifies store, this`showConfirmDelete
      ensures store.Valid() && !showConfirmDelete
      ensures store.taskTypes == Store.TypesWithout(old(store.taskTypes), cardType.id)
      ensures store.tasks == Store.TasksWithoutType(old(store.tasks), cardType.id)
      ensures !Store.HasType(store.taskTypes, cardType.id)
      ensures !Store.HasTaskOfType(store.tasks, cardType.id)
      ensures store.viewMode == old(store.viewMode) && store.currentDate == old(store.currentDate)
      ensures store.rightPanelWidth == old(store.rightPanelWidth)
    {
      Store.DeleteTaskTypeCascade(store.tasks, store.taskTypes, cardType.id);
      store.DeleteTaskType(cardType.id);
      showConfirmDelete := false;
    }
  }
}
