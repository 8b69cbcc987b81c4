/** Properties relating several operations of the task management system. */
module TaskManagementProperties {
  import opened Optional
  import opened Selection
  import opened Text
  import opened OrderedDict
  import opened Records
  import opened TaskManagement

  // ---------------------------------------------------------------- users

  /** Registering a username twice: the second call is refused and the first
      registration's password and name survive. */
  lemma RegisterTwiceRejected(r: Registry, username: string, p1: string, n1: string, p2: string, n2: string)
    requires username !in r.users
    ensures
      var first := RegisterUser(r, username, p1, n1);
      var second := RegisterUser(first.state, username, p2, n2);
      && first.result == Some(User(username, p1, n1))
      && second.result.None?
      && second.state.users[username] == User(username, p1, n1)
  {
  }

  /** A freshly registered user can log in with the password they registered with,
      and becomes the session's user. */
  lemma LoginAfterRegister(r: Registry, username: string, password: string, name: string)
    requires username !in r.users
    ensures
      var s := RegisterUser(r, username, password, name).state;
      var login := Login(s, username, password);
      login.result == Some(User(username, password, name)) && login.state.loggedIn == login.result
  {
  }

  /** Logging in with any other password is refused and leaves the session as it was. */
  lemma WrongPasswordRejected(r: Registry, username: string, password: string, name: string, attempt: string)
    requires username !in r.users
    requires attempt != password
    ensures
      var s := RegisterUser(r, username, password, name).state;
      Login(s, username, attempt) == Step(s, None)
  {
  }

  /** Logging out twice is logging out once. */
  lemma LogoutIdempotent(r: Registry)
    ensures Logout(Logout(r)) == Logout(r)
    ensures Logout(r).loggedIn.None?
  {
  }

  // ---------------------------------------------------------------- tasks

  /** Creating two tasks with the same title: last write wins, and the table
      looks as if only the second creation had happened. */
  lemma CreateLastWriteWins(r: Registry, title: string,
                            d1: string, due1: Option<Date>, a1: Option<User>,
                            d2: string, due2: Option<Date>, a2: Option<User>)
    ensures
      var first := CreateTask(r, title, d1, due1, a1).state;
      CreateTask(first, title, d2, due2, a2).state == CreateTask(r, title, d2, due2, a2).state
  {
    PutPut(r.tasks, title, NewTask(title, d1, due1, a1), NewTask(title, d2, due2, a2));
  }

  /** Deleting a task right after creating it under a fresh title succeeds and
      restores the previous state exactly. */
  lemma DeleteUndoesCreate(r: Registry, title: string, description: string, dueDate: Option<Date>, assignee: Option<User>)
    requires title !in KeyList(r.tasks)
    ensures DeleteTask(CreateTask(r, title, description, dueDate, assignee).state, title) == Step(r, true)
  {
    RemovePutFresh(r.tasks, title, NewTask(title, description, dueDate, assignee));
  }

  /** Renaming a task changes its `title` field but not its key: afterwards the
      new title cannot be deleted while the old one can. */
  lemma RenameKeepsKey(r: Registry, title: string, newTitle: string)
    requires title in KeyList(r.tasks)
    requires newTitle !in KeyList(r.tasks)
    ensures
      var u := UpdateTask(r, title, Some(newTitle), None, None, None, None);
      && u.result.Some? && u.result.value.title == newTitle
      && !DeleteTask(u.state, newTitle).result
      && DeleteTask(u.state, title).result
  {
  }

  /** An update can set a due date or an assignee but never remove one. */
  lemma UpdateNeverClears(r: Registry, title: string, newTitle: Option<string>, description: Option<string>,
                          dueDate: Option<Date>, assignee: Option<User>, completed: Option<bool>)
    requires title in KeyList(r.tasks)
    ensures
      var before := Get(r.tasks, title).value;
      var after := UpdateTask(r, title, newTitle, description, dueDate, assignee, completed).result.value;
      && (before.dueDate.Some? ==> after.dueDate.Some?)
      && (before.assignee.Some? ==> after.assignee.Some?)
  {
  }

  /** `completed = false` is a supplied value: it reopens a completed task. */
  lemma UpdateCanReopen(r: Registry, title: string)
    requires title in KeyList(r.tasks)
    ensures
      var u := UpdateTask(r, title, None, None, None, None, Some(false));
      u.result.Some? && !u.result.value.completed && Get(u.state.tasks, title) == u.result
  {
  }

  /** Updating or deleting an unknown title changes nothing. */
  lemma UnknownTitleChangesNothing(r: Registry, title: string, newTitle: Option<string>, description: Option<string>,
                                   dueDate: Option<Date>, assignee: Option<User>, completed: Option<bool>)
    requires title !in KeyList(r.tasks)
    ensures UpdateTask(r, title, newTitle, description, dueDate, assignee, completed) == Step(r, None)
    ensures DeleteTask(r, title) == Step(r, false)
  {
  }

  // ---------------------------------------------------------------- queries

  /** A task is found by a search iff it is in the table and matches the keyword. */
  lemma SearchMembership(r: Registry, keyword: string, t: Task)
    ensures t in SearchTasks(r, keyword) <==> t in ValueList(r.tasks) && Matches(keyword, t)
  {
    SelectMembership(ValueList(r.tasks), MatchesKeyword(keyword), t);
  }

  /** Search ignores the case of the keyword. */
  lemma SearchCaseInsensitive(r: Registry, keyword: string)
    ensures SearchTasks(r, keyword) == SearchTasks(r, Lower(keyword))
  {
    LowerIdempotent(keyword);
    SelectExtensional(ValueList(r.tasks), MatchesKeyword(keyword), MatchesKeyword(Lower(keyword)));
  }

  /** The empty keyword occurs in every title, so it finds every task, in order. */
  lemma SearchEmptyKeyword(r: Registry)
    ensures SearchTasks(r, "") == ValueList(r.tasks)
  {
    var all := ValueList(r.tasks);
    forall i | 0 <= i < |all|
      ensures MatchesKeyword("")(all[i])
    {
      EmptyOccursEverywhere(Lower(all[i].title));
    }
    SelectAll(all, MatchesKeyword(""));
  }

  /** A task without an assignee matches only through its title or its description. */
  lemma UnassignedMatch(keyword: string, t: Task)
    requires t.assignee.None?
    ensures Matches(keyword, t) <==>
      IsSubstring(Lower(keyword), Lower(t.title)) || IsSubstring(Lower(keyword), Lower(t.description))
  {
  }

  /** A newly created task is found by searching for its own title. */
  lemma CreatedTaskIsFound(r: Registry, title: string, description: string, dueDate: Option<Date>, assignee: Option<User>)
    ensures
      var c := CreateTask(r, title, description, dueDate, assignee);
      c.result in SearchTasks(c.state, title)
  {
    var c := CreateTask(r, title, description, dueDate, assignee);
    GetInValues(c.state.tasks, title);
    assert OccursAt(Lower(title), Lower(title), 0);
    SearchMembership(c.state, title, c.result);
  }

  /** A task is kept by a filter iff it is in the table and meets every supplied criterion. */
  lemma FilterMembership(r: Registry, completed: Option<bool>, dueDate: Option<Date>, t: Task)
    ensures t in FilterTasks(r, completed, dueDate) <==> t in ValueList(r.tasks) && Keeps(completed, dueDate, t)
  {
    FilterIsOnePass(ValueList(r.tasks), completed, dueDate);
    SelectMembership(ValueList(r.tasks), KeepsAll(completed, dueDate), t);
  }

  /** With no criteria the filter returns every task, in order. */
  lemma FilterNoCriteria(r: Registry)
    ensures FilterTasks(r, None, None) == ValueList(r.tasks)
  {
  }

  /** A task just marked completed (or not) by an update is kept by the filter on that flag. */
  lemma UpdatedTaskIsFiltered(r: Registry, title: string, c: bool)
    requires title in KeyList(r.tasks)
    ensures
      var u := UpdateTask(r, title, None, None, None, None, Some(c));
      u.result.Some? && u.result.value in FilterTasks(u.state, Some(c), None)
  {
    var u := UpdateTask(r, title, None, None, None, None, Some(c));
    GetInValues(u.state.tasks, title);
    FilterMembership(u.state, Some(c), None, u.result.value);
  }

  // ---------------------------------------------------------------- assignees

  /** Every assignee of a stored task is the registered user of that username. */
  ghost predicate AssigneesRegistered(r: Registry)
  {
    forall t :: t in ValueList(r.tasks) && t.assignee.Some? ==> Registered(r, t.assignee.value)
  }

  /** `u` is the user registered under its username. */
  ghost predicate Registered(r: Registry, u: User)
  {
    u.username in r.users && r.users[u.username] == u
  }

  /** The initial system has no tasks, so trivially no unregistered assignee. */
  lemma InitAssigneesRegistered()
    ensures AssigneesRegistered(Init())
    ensures Init().loggedIn.None? && |Init().users| == 0
    ensures Init().tasks == []
  {
  }

  /** Registration, login and logout keep every assignee registered, since users
      are never removed or replaced. */
  lemma UserOpsKeepAssignees(r: Registry, username: string, password: string, name: string)
    requires AssigneesRegistered(r)
    ensures AssigneesRegistered(RegisterUser(r, username, password, name).state)
    ensures AssigneesRegistered(Login(r, username, password).state)
    ensures AssigneesRegistered(Logout(r))
  {
  }

  /** Creating a task with a registered assignee (or none) keeps every assignee registered. */
  lemma CreateKeepsAssignees(r: Registry, title: string, description: string, dueDate: Option<Date>, assignee: Option<User>)
    requires AssigneesRegistered(r)
    requires assignee.Some? ==> Registered(r, assignee.value)
    ensures AssigneesRegistered(CreateTask(r, title, description, dueDate, assignee).state)
  {
    var task := NewTask(title, description, dueDate, assignee);
    forall t | t in ValueList(Put(r.tasks, title, task)) && t.assignee.Some?
      ensures Registered(r, t.assignee.value)
    {
      PutValues(r.tasks, title, task, t);
    }
  }

  /** Updating with a registered assignee (or none) keeps every assignee registered. */
  lemma UpdateKeepsAssignees(r: Registry, title: string, newTitle: Option<string>, description: Option<string>,
                             dueDate: Option<Date>, assignee: Option<User>, completed: Option<bool>)
    requires AssigneesRegistered(r)
    requires assignee.Some? ==> Registered(r, assignee.value)
    ensures AssigneesRegistered(UpdateTask(r, title, newTitle, description, dueDate, assignee, completed).state)
  {
    if title in KeyList(r.tasks) {
      var before := Get(r.tasks, title).value;
      GetInValues(r.tasks, title);
      var after := Overwrite(before, newTitle, description, dueDate, assignee, completed);
      forall t | t in ValueList(Put(r.tasks, title, after)) && t.assignee.Some?
        ensures Registered(r, t.assignee.value)
      {
        PutValues(r.tasks, title, after, t);
      }
    }
  }

  /** Deleting a task keeps every remaining assignee registered. */
  lemma DeleteKeepsAssignees(r: Registry, title: string)
    requires AssigneesRegistered(r)
    ensures AssigneesRegistered(DeleteTask(r, title).state)
  {
    forall t | t in ValueList(Remove(r.tasks, title)) && t.assignee.Some?
      ensures Registered(r, t.assignee.value)
    {
      RemoveValues(r.tasks, title, t);
    }
  }
}
