/** The task management system: a user registry, a task table keyed by title
    and kept in insertion order, and at most one logged-in user. Every
    operation is a pure state transition returning the new state together with
    the value the operation returns. */
module TaskManagement {
  import opened Optional
  import opened Selection
  import opened Text
  import opened OrderedDict
  import opened Records

  /** The task table: a dict from title to task, so no title occurs twice. */
  type TaskTable = d: seq<(string, Task)> | NoDupKeys(d) witness []

  datatype Registry = Registry(
    users: map<string, User>,
    tasks: TaskTable,
    loggedIn: Option<User>)

  /** A new state together with the operation's return value. */
  datatype Step<T> = Step(state: Registry, result: T)

  /** A freshly constructed system: no users, no tasks, nobody logged in. */
  function Init(): Registry
  {
    Registry(map[], [], None)
  }

  // ---------------------------------------------------------------- users

  /** Registers a new user; a taken username is refused with `None` and nothing changes. */
  function RegisterUser(r: Registry, username: string, password: string, name: string): (s: Step<Option<User>>)
    ensures s.result.None? <==> username in r.users
    ensures s.result.None? ==> s.state == r
    ensures s.result.Some? ==>
      && s.result.value.username == username
      && s.result.value.password == password
      && s.result.value.name == name
      && s.state.users.Keys == r.users.Keys + {username}
      && s.state.users[username] == s.result.value
    ensures forall u :: u in r.users ==> u in s.state.users && s.state.users[u] == r.users[u]
    ensures s.state.tasks == r.tasks && s.state.loggedIn == r.loggedIn
  {
    if username in r.users then Step(r, None)
    else
      var user := User(username, password, name);
      Step(r.(users := r.users[username := user]), Some(user))
  }

  /** Logs in when the username is registered and the stored password is exactly the one given. */
  function Login(r: Registry, username: string, password: string): (s: Step<Option<User>>)
    ensures s.result.Some? <==> username in r.users && r.users[username].password == password
    ensures s.result.Some? ==> s.result.value == r.users[username] && s.state.loggedIn == s.result
    ensures s.result.None? ==> s.state == r
    ensures s.state.users == r.users && s.state.tasks == r.tasks
  {
    if username in r.users && r.users[username].password == password then
      Step(r.(loggedIn := Some(r.users[username])), Some(r.users[username]))
    else
      Step(r, None)
  }

  /** Ends the session, whether or not anyone was logged in. */
  function Logout(r: Registry): (s: Registry)
    ensures s.loggedIn.None?
    ensures s.users == r.users && s.tasks == r.tasks
  {
    r.(loggedIn := None)
  }

  // ---------------------------------------------------------------- tasks

  /** Creates a task and stores it under `title`: an existing task with that
      key is replaced where it stands, a new key is appended. */
  function CreateTask(r: Registry, title: string, description: string, dueDate: Option<Date>, assignee: Option<User>): (s: Step<Task>)
    ensures s.result.title == title && s.result.description == description
    ensures s.result.dueDate == dueDate && s.result.assignee == assignee
    ensures !s.result.completed
    ensures Get(s.state.tasks, title) == Some(s.result)
    ensures forall k :: k != title ==> Get(s.state.tasks, k) == Get(r.tasks, k)
    ensures title in KeyList(r.tasks) ==> KeyList(s.state.tasks) == KeyList(r.tasks)
    ensures title !in KeyList(r.tasks) ==> KeyList(s.state.tasks) == KeyList(r.tasks) + [title]
    ensures s.state.users == r.users && s.state.loggedIn == r.loggedIn
  {
    var task := NewTask(title, description, dueDate, assignee);
    Step(r.(tasks := Put(r.tasks, title, task)), task)
  }

  /** The task with every supplied (non-`None`) field overwritten. Since `None`
      means "not supplied", an update can set a due date or an assignee but never
      clear one, while `completed = false` and an empty title are real values. */
  function Overwrite(t: Task, newTitle: Option<string>, description: Option<string>,
                     dueDate: Option<Date>, assignee: Option<User>, completed: Option<bool>): Task
  {
    Task(newTitle.OrElse(t.title),
         description.OrElse(t.description),
         if dueDate.Some? then dueDate else t.dueDate,
         if assignee.Some? then assignee else t.assignee,
         completed.OrElse(t.completed))
  }

  /** Updates the task stored under `title`, or returns `None` when there is none.
      A new title changes the task's `title` field only: the task stays stored
      under `title`. */
  function UpdateTask(r: Registry, title: string, newTitle: Option<string>, description: Option<string>,
                      dueDate: Option<Date>, assignee: Option<User>, completed: Option<bool>): (s: Step<Option<Task>>)
    ensures s.result.None? <==> title !in KeyList(r.tasks)
    ensures s.result.None? ==> s.state == r
    ensures s.result.Some? ==>
      var before := Get(r.tasks, title).value;
      var after := s.result.value;
      && (if newTitle.Some? then after.title == newTitle.value else after.title == before.title)
      && (if description.Some? then after.description == description.value else after.description == before.description)
      && (if dueDate.Some? then after.dueDate == dueDate else after.dueDate == before.dueDate)
      && (if assignee.Some? then after.assignee == assignee else after.assignee == before.assignee)
      && (if completed.Some? then after.completed == completed.value else after.completed == before.completed)
      && Get(s.state.tasks, title) == s.result
    ensures KeyList(s.state.tasks) == KeyList(r.tasks)
    ensures forall k :: k != title ==> Get(s.state.tasks, k) == Get(r.tasks, k)
    ensures s.state.users == r.users && s.state.loggedIn == r.loggedIn
  {
    match Get(r.tasks, title)
    case None => Step(r, None)
    case Some(task) =>
      var updated := Overwrite(task, newTitle, description, dueDate, assignee, completed);
      Step(r.(tasks := Put(r.tasks, title, updated)), Some(updated))
  }

  /** Deletes the task stored under `title`; the result says whether there was one. */
  function DeleteTask(r: Registry, title: string): (s: Step<bool>)
    ensures s.result <==> title in KeyList(r.tasks)
    ensures !s.result ==> s.state == r
    ensures title !in KeyList(s.state.tasks)
    ensures forall k :: k != title ==> Get(s.state.tasks, k) == Get(r.tasks, k)
    ensures KeyList(s.state.tasks) == Select(KeyList(r.tasks), OtherThan(title))
    ensures s.state.users == r.users && s.state.loggedIn == r.loggedIn
  {
    RemoveKeepsOrder(r.tasks, title);
    if title in KeyList(r.tasks) then Step(r.(tasks := Remove(r.tasks, title)), true)
    else Step(r, false)
  }

  // ---------------------------------------------------------------- queries

  /** The search test: the lower-cased keyword occurs in the lower-cased title or
      description, or in the assignee's lower-cased display name when there is an assignee. */
  predicate Matches(keyword: string, t: Task)
  {
    var k := Lower(keyword);
    || Contains(k, Lower(t.title))
    || Contains(k, Lower(t.description))
    || (t.assignee.Some? && Contains(k, Lower(t.assignee.value.name)))
  }

  /** `Matches` for a fixed keyword, as a predicate on tasks. */
  function MatchesKeyword(keyword: string): Task -> bool
  {
    t => Matches(keyword, t)
  }

  /** The tasks matching `keyword`, in the table's iteration order: a subsequence
      of the table's values that keeps exactly the matching tasks. */
  function SearchTasks(r: Registry, keyword: string): (found: seq<Task>)
    ensures IsSubseq(found, ValueList(r.tasks))
    ensures forall i :: 0 <= i < |found| ==> Matches(keyword, found[i])
    ensures |found| == Count(ValueList(r.tasks), MatchesKeyword(keyword))
  {
    var all := ValueList(r.tasks);
    SelectIsSubseq(all, MatchesKeyword(keyword));
    SelectLength(all, MatchesKeyword(keyword));
    Select(all, MatchesKeyword(keyword))
  }

  /** The filter test: each supplied criterion must hold; an absent one always does. */
  predicate Keeps(completed: Option<bool>, dueDate: Option<Date>, t: Task)
  {
    && (completed.None? || t.completed == completed.value)
    && (dueDate.None? || t.dueDate == dueDate)
  }

  /** `Keeps` for fixed criteria, as a predicate on tasks. */
  function KeepsAll(completed: Option<bool>, dueDate: Option<Date>): Task -> bool
  {
    t => Keeps(completed, dueDate, t)
  }

  /** Tasks whose completion flag is `c`. */
  function CompletedIs(c: bool): Task -> bool
  {
    (t: Task) => t.completed == c
  }

  /** Tasks due on `d`. */
  function DueOn(d: Date): Task -> bool
  {
    (t: Task) => t.dueDate == Some(d)
  }

  /** Filters the table's values, first by completion (when supplied), then by due
      date (when supplied). The result keeps exactly the tasks satisfying both
      supplied criteria, in the table's iteration order. */
  function FilterTasks(r: Registry, completed: Option<bool>, dueDate: Option<Date>): (found: seq<Task>)
    ensures IsSubseq(found, ValueList(r.tasks))
    ensures forall i :: 0 <= i < |found| ==> Keeps(completed, dueDate, found[i])
    ensures |found| == Count(ValueList(r.tasks), KeepsAll(completed, dueDate))
  {
    var all := ValueList(r.tasks);
    var byCompleted := if completed.Some? then Select(all, CompletedIs(completed.value)) else all;
    var byDueDate := if dueDate.Some? then Select(byCompleted, DueOn(dueDate.value)) else byCompleted;
    FilterIsOnePass(all, completed, dueDate);
    SelectIsSubseq(all, KeepsAll(completed, dueDate));
    SelectLength(all, KeepsAll(completed, dueDate));
    byDueDate
  }

  /** The two successive passes of `FilterTasks` select the same tasks as one pass
      with the conjunction of the supplied criteria. */
  lemma FilterIsOnePass(all: seq<Task>, completed: Option<bool>, dueDate: Option<Date>)
    ensures
      var byCompleted := if completed.Some? then Select(all, CompletedIs(completed.value)) else all;
      (if dueDate.Some? then Select(byCompleted, DueOn(dueDate.value)) else byCompleted)
        == Select(all, KeepsAll(completed, dueDate))
  {
    var keep := KeepsAll(completed, dueDate);
    match (completed, dueDate)
    case (None, None) =>
      SelectAll(all, keep);
    case (Some(c), None) =>
      SelectExtensional(all, CompletedIs(c), keep);
    case (None, Some(d)) =>
      SelectExtensional(all, DueOn(d), keep);
    case (Some(c), Some(d)) =>
      SelectSelect(all, CompletedIs(c), DueOn(d), keep);
  }
}
