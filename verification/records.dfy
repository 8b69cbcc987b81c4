/** The two passive records of the task manager. */
module Records {
  import opened Optional

  /** A registered user. The password is kept and compared as plain text. */
  datatype User = User(username: string, password: string, name: string)

  /** A calendar date (the value `strptime(...).date()` produces); the registry
      only ever compares dates for equality. */
  datatype Date = Date(year: int, month: int, day: int)

  /** A task. `title` is a field like the others: the registry's key for the
      task is kept separately and can diverge from it. */
  datatype Task = Task(
    title: string,
    description: string,
    dueDate: Option<Date>,
    assignee: Option<User>,
    completed: bool)

  /** The `Task` constructor: every new task starts out not completed. */
  function NewTask(title: string, description: string, dueDate: Option<Date>, assignee: Option<User>): Task
  {
    Task(title, description, dueDate, assignee, false)
  }
}
