/** `TaskPanel.tsx`: the category panel, with its width clamp, the form that adds a
  * category, and its own, simpler category cards. */
module TaskPanel {
  import opened Wrappers
  import opened Text
  import opened Types
  import Store
  import TaskTypeCard

  /** The narrowest and widest panel a drag can produce. */
  const MinWidth := 300
  const MaxWidth := 600

  /** `Math.max(300, Math.min(600, w))`. */
  function ClampWidth(w: int): (r: int)
    ensures MinWidth <= r <= MaxWidth
    ensures MinWidth <= w <= MaxWidth ==> r == w
    ensures w < MinWidth ==> r == MinWidth
    ensures w > MaxWidth ==> r == MaxWidth
  {
    var inner := if MaxWidth < w then MaxWidth else w;
    if MinWidth < inner then inner else MinWidth
  }

  /** The width a document `mousemove` leaves: the listeners registered on the document
    * are given by the `isResizing` each one's closure captured, and a listener resizes
    * only when its captured flag is set. */
  function ListenersWidth(captured: seq<bool>, width: int, innerWidth: int, clientX: int): (r: int)
    ensures r == width || r == ClampWidth(innerWidth - clientX)
    ensures (forall i :: 0 <= i < |captured| ==> !captured[i]) ==> r == width
  {
    if exists i :: 0 <= i < |captured| && captured[i] then ClampWidth(innerWidth - clientX) else width
  }

  /** A drag from rest, as written: the listener registered at mouse-down captured
    * `isResizing == false`, so no mouse move changes the width. With a 1000-pixel
    * window and the pointer at 500 the panel stays 400 wide instead of becoming 500. */
  lemma StaleListenerKeepsWidth(width: int, innerWidth: int, clientX: int)
    ensures ListenersWidth([false], width, innerWidth, clientX) == width
    ensures ListenersWidth([false], 400, 1000, 500) == 400 != ClampWidth(1000 - 500)
  {
    assert forall i :: 0 <= i < |[false]| ==> ![false][i];
  }

  /** Clamping is monotone: a wider drag never gives a narrower panel. */
  lemma ClampMonotone(a: int, b: int)
    requires a <= b
    ensures ClampWidth(a) <= ClampWidth(b)
  {
  }

  /** The panel's own state. `moveListeners` are the `mousemove` listeners registered
    * on the document, each given by the `isResizing` its closure captured. */
  class Panel {
    var isResizing: bool
    var newTypeName: string
    var showNewTypeForm: bool
    var moveListeners: seq<bool>

    constructor ()
      ensures !isResizing && newTypeName == "" && !showNewTypeForm && moveListeners == []
    {
      isResizing := false;
      newTypeName := "";
      showNewTypeForm := false;
      moveListeners := [];
    }

    /** `handleMouseDown`: sets `isResizing` and registers the render's `handleMouseMove`,
      * whose closure holds the `isResizing` of that render, the value before the set. */
    method HandleMouseDown()
      modifies this`isResizing, this`moveListeners
      ensures isResizing
      ensures moveListeners == old(moveListeners) + [old(isResizing)]
    {
      moveListeners := moveListeners + [isResizing];
      isResizing := true;
    }

    /** A `mousemove` on the document, as written: every registered listener runs with
      * the flag it captured. */
    method DocumentMouseMove(store: Store.TaskStore, innerWidth: int, clientX: int)
      modifies store`rightPanelWidth
      ensures store.rightPanelWidth
        == ListenersWidth(moveListeners, old(store.rightPanelWidth), innerWidth, clientX)
    {
      store.SetRightPanelWidth(ListenersWidth(moveListeners, store.rightPanelWidth, innerWidth, clientX));
    }

    /** `handleMouseMove` as intended, reading the current `isResizing`: while resizing,
      * the panel takes the width from the pointer to the window's right edge, clamped. */
    method HandleMouseMove(store: Store.TaskStore, innerWidth: int, clientX: int)
      modifies store`rightPanelWidth
      ensures isResizing ==> store.rightPanelWidth == ClampWidth(innerWidth - clientX)
      ensures !isResizing ==> store.rightPanelWidth == old(store.rightPanelWidth)
      ensures MinWidth <= old(store.rightPanelWidth) <= MaxWidth ==> MinWidth <= store.rightPanelWidth <= MaxWidth
    {
      if isResizing {
        store.SetRightPanelWidth(ClampWidth(innerWidth - clientX));
      }
    }

    /** `handleMouseUp`: clears `isResizing`; the registered `mouseup` listener removes
      * the `mousemove` listener registered with it. */
    method HandleMouseUp()
      modifies this`isResizing, this`moveListeners
      ensures !isResizing && moveListeners == []
    {
      isResizing := false;
      moveListeners := [];
    }

    /** The input's `onChange`. */
    method SetNewTypeName(s: string)
      modifies this`newTypeName
      ensures newTypeName == s
    {
      newTypeName := s;
    }

    /** The plus button. */
    method ShowForm()
      modifies this`showNewTypeForm
      ensures showNewTypeForm
    {
      showNewTypeForm := true;
    }

    /** "Cancel": hides the form; the typed name stays and nothing is added. */
    method CancelForm()
      modifies this`showNewTypeForm
      ensures !showNewTypeForm
    {
      showNewTypeForm := false;
    }

    /** `handleAddType`; `newId` stands for the fresh id and `color` for the random colour.
      * A name that is not blank adds a category with the trimmed name, then the input
      * clears and the form closes; a blank name changes nothing. */
    method HandleAddType(store: Store.TaskStore, newId: string, color: string) returns (added: bool)
      requires store.Valid() && store.FreshId(newId)
      modifies store, this`newTypeName, this`showNewTypeForm
      ensures store.Valid()
      ensures added <==> !AllWhitespace(old(newTypeName))
      ensures added ==> store.taskTypes == old(store.taskTypes) + [TaskType(newId, Trim(old(newTypeName)), color)]
      ensures added ==> newTypeName == "" && !showNewTypeForm
      ensures !added ==> store.taskTypes == old(store.taskTypes)
      ensures !added ==> newTypeName == old(newTypeName) && showNewTypeForm == old(showNewTypeForm)
      ensures store.tasks == old(store.tasks) && store.viewMode == old(store.viewMode)
      ensures store.currentDate == old(store.currentDate)
      ensures store.rightPanelWidth == old(store.rightPanelWidth)
    {
      added := false;
      var name := TrimmedInput(newTypeName);
      if name.Some? {
        store.AddTaskType(newId, name.value, color);
        newTypeName := "";
        showNewTypeForm := false;
        added := true;
      }
    }
  }

  /** The panel's local category card: its backlog is `TaskTypeCard.Backlog`, and it has
    * the task input but no delete. */
  class PanelCard {
    const cardType: TaskType
    var title: string

    constructor (t: TaskType)
      ensures cardType == t && title == ""
    {
      cardType := t;
      title := "";
    }

    /** The input's `onChange`. */
    method SetTitle(s: string)
      modifies this`title
      ensures title == s
    {
      title := s;
    }

    /** `handleSubmit`, as on the main card. */
    method HandleSubmit(store: Store.TaskStore, newId: string) returns (added: bool)
      requires store.Valid() && store.FreshId(newId)
      modifies store, this`title
      ensures store.Valid()
      ensures cardType.id != "" ==> (added <==> !AllWhitespace(old(title)))
      ensures added && cardType.id != "" ==>
        store.tasks == old(store.tasks) + [Store.NewTask(newId, Trim(old(title)), cardType.id)]
      ensures added ==> title == ""
      ensures !added ==> store.tasks == old(store.tasks) && title == old(title)
      ensures store.taskTypes == old(store.taskTypes) && store.viewMode == old(store.viewMode)
      ensures store.currentDate == old(store.currentDate)
      ensures store.rightPanelWidth == old(store.rightPanelWidth)
    {
      var newTitle;
      added, newTitle := TaskTypeCard.SubmitTask(store, newId, title, cardType.id);
      title := newTitle;
    }
  }
}
