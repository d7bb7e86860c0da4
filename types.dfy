/** The records of `types.ts`. */
module Types {
  import opened Wrappers
  import CivilDate

  /** `ViewMode`, the string union `'day' | 'week' | 'month'`. */
  datatype ViewMode = Day | Week | Month

  /** The string value of each mode. */
  function ViewModeName(m: ViewMode): string {
    match m
    case Day => "day"
    case Week => "week"
    case Month => "month"
  }

  /** Reads a string as a `ViewMode`: exactly the three names are accepted, each as its own mode. */
  function ParseViewMode(s: string): (r: Option<ViewMode>)
    ensures r.Some? <==> s == "day" || s == "week" || s == "month"
    ensures r.Some? ==> ViewModeName(r.value) == s
  {
    if s == "day" then Some(Day)
    else if s == "week" then Some(Week)
    else if s == "month" then Some(Month)
    else None
  }

  /** Every mode reads back from its name. */
  lemma ViewModeNameRoundTrip(m: ViewMode)
    ensures ParseViewMode(ViewModeName(m)) == Some(m)
  {
  }

  /** `Task`: `date` is `null` for backlog tasks, otherwise a `YYYY-MM-DD` key;
    * `scheduledTime` is `undefined` or an `HH:mm` text. */
  datatype Task = Task(
    id: string,
    title: string,
    date: Option<string>,
    typeId: string,
    completed: bool,
    scheduledTime: Option<string>)

  /** `TaskType`: a category. */
  datatype TaskType = TaskType(id: string, name: string, color: string)

  /** `DateRange`. */
  datatype DateRange = DateRange(start: CivilDate.Day, end: CivilDate.Day)

  /** JavaScript truthiness of an optional string: present and not empty. */
  predicate Truthy(s: Option<string>) {
    s.Some? && s.value != ""
  }
}
