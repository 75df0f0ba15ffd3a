/**
 * The pure decisions the task handlers make on form and query values:
 * the title guard of `add_task`, the reminder-date normalisation shared by
 * `add_task` and `edit_task`, and the `filter` query parameter of `dashboard`.
 * A form field the browser did not send is `None`.
 */
module Forms {
  import opened Records

  /** Python's `not title` is false exactly for a present, non-empty title. */
  predicate TitleGiven(title: Option<string>) {
    title.Some? && title.value != ""
  }

  /** `reminder_date if reminder_date else None`: an empty or missing date is stored as NULL. */
  function NormalizeReminder(reminderDate: Option<string>): (r: Option<string>)
    ensures r.Some? <==> reminderDate.Some? && reminderDate.value != ""
    ensures r.Some? ==> r == reminderDate
  {
    if reminderDate.Some? && reminderDate.value != "" then reminderDate else None
  }

  /** `request.args.get('filter', 'all')`. */
  const DEFAULT_FILTER := "all"

  /**
   * The completion clause a filter value adds to the dashboard query:
   * `Some(true)` for `is_completed = 1`, `Some(false)` for `is_completed = 0`,
   * `None` (no clause) for every other value.
   */
  function CompletionFilter(filterOption: string): (r: Option<bool>)
    ensures r == Some(true) <==> filterOption == "completed"
    ensures r == Some(false) <==> filterOption == "pending"
    ensures r == None <==> filterOption != "completed" && filterOption != "pending"
  {
    if filterOption == "completed" then Some(true)
    else if filterOption == "pending" then Some(false)
    else None
  }

  predicate PassesFilter(t: Task, completed: Option<bool>) {
    completed.None? || t.isCompleted == completed.value
  }

  /** The text the dashboard query always starts with: it is scoped to one user. */
  const SELECT_OWN_TASKS := "SELECT * FROM tasks WHERE user_id = %s"
  const ORDER_NEWEST_FIRST := " ORDER BY created_at DESC"
  const ONLY_COMPLETED := " AND is_completed = 1"
  const ONLY_PENDING := " AND is_completed = 0"

  /** The SQL text of a completion clause; no clause is the empty text. */
  function CompletionClause(completed: Option<bool>): (r: string)
    ensures r == "" <==> completed.None?
  {
    match completed
    case Some(true) => ONLY_COMPLETED
    case Some(false) => ONLY_PENDING
    case None => ""
  }
}
