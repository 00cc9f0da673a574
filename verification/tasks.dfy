/** The task record and the per-record logic of the task list: building a new
    record and the overdue test used when a record is displayed. */
module Tasks {
  import opened Text

  datatype Option<+T> = None | Some(value: T)

  /** A task in the current stored shape `{ id, text, completed, priority,
      dueDate, createdAt }`. A field missing from a stored object is modelled
      by the value that every reader treats the same way: "" for `text` and
      `priority`, false for `completed`, None for `dueDate`. */
  datatype Task = Task(
    id: string,
    text: string,
    completed: bool,
    priority: string,
    dueDate: Option<string>,
    createdAt: string)

  /** JavaScript truthiness of an optional string: absent, null and "" are falsy. */
  predicate Truthy(s: Option<string>) {
    s.Some? && s.value != ""
  }

  /** `createTaskObject(text, dueDate, priority)`: the fresh id and the creation
      timestamp, which the source draws from the clock and the random number
      generator, are supplied by the caller. */
  function CreateTaskObject(text: string, dueDate: Option<string>, priority: Option<string>,
                            id: string, createdAt: string): (t: Task)
    ensures t.id == id && t.text == text && t.createdAt == createdAt && !t.completed
    ensures t.priority != "" && (t.dueDate == None || Truthy(t.dueDate))
  {
    Task(id, text, false,
         if Truthy(priority) then priority.value else "medium",
         if Truthy(dueDate) then dueDate else None,
         createdAt)
  }

  /** The overdue highlight of `createTaskElement`: a due date is set, the task
      is open, and the due date is smaller than today as a string. */
  predicate IsOverdue(t: Task, today: string) {
    Truthy(t.dueDate) && !t.completed && LexLess(t.dueDate.value, today)
  }

  /** For dates in `YYYY-MM-DD` form the string test is the calendar test: an
      open task is overdue exactly when its due day comes before today. A task
      due today, or completed, is never overdue. */
  lemma OverdueMeansPastDue(t: Task, today: string)
    requires IsIsoDate(today)
    requires t.dueDate.Some? ==> IsIsoDate(t.dueDate.value)
    ensures IsOverdue(t, today) <==>
      t.dueDate.Some? && !t.completed && DateNumber(t.dueDate.value) < DateNumber(today)
    ensures t.dueDate == Some(today) ==> !IsOverdue(t, today)
    ensures t.completed ==> !IsOverdue(t, today)
  {
    if t.dueDate.Some? {
      DateOrder(t.dueDate.value, today);
      LexLessIrreflexive(today);
    }
  }

  /** An open task that is overdue on one day is still overdue on every later
      day, later meaning larger as a string. */
  lemma OverdueStaysOverdue(t: Task, today: string, later: string)
    requires IsOverdue(t, today) && LexLess(today, later)
    ensures IsOverdue(t, later)
  {
    LexLessTransitive(t.dueDate.value, today, later);
  }
}
