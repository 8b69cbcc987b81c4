# Task management system — a verified model of its record-management core

The task manager keeps registered users and tasks in memory. A user registers
with a username, a password and a display name. A user logs in by username and
password; at most one user is logged in at a time. Tasks are created, updated,
deleted, searched by keyword and filtered by completion and due date. Tasks live
in a Python dict keyed by title, so they iterate in insertion order.

This project models that core (`User`, `Task` and `TaskManagementSystem` in
`taskmanager.py`) as pure Dafny functions over immutable values:

- `optional.dfy` — module `Optional`: `Option<T>` stands for Python's `None`-or-value.
  `OrElse` is the idiom `x if x is not None else fallback`.
- `selection.dfy` — module `Selection`: `Select` is an order-preserving list
  comprehension `[x for x in xs if p(x)]`. `Count` counts the matches and
  `IsSubseq` is the subsequence relation. `SelectUnique` proves that a
  subsequence whose elements all satisfy `p` and which has `Count(xs, p)`
  elements is `Select(xs, p)`. So the three clauses `IsSubseq`, "all satisfy"
  and "length = Count" pin a result down exactly.
- `text.dfy` — module `Text`: `Lower` is `str.lower()` and `Contains` decides
  Python's `needle in hay` for strings. `Contains` is proved equal to the
  definition "some slice of `hay` equals `needle`".
- `ordered_dict.dfy` — module `OrderedDict`: a Python dict as an association
  list in insertion order. `d.get(k)` is `Get`, `d[k] = v` is `Put`, `del d[k]`
  is `Remove`, `d.keys()` is `KeyList` and `d.values()` is `ValueList`.
- `records.dfy` — module `Records`: `User`, `Date` and `Task`.
- `registry.dfy` — module `TaskManagement`: the state `Registry(users, tasks, loggedIn)`
  and the eight operations. The task table is the subset type `TaskTable`, so
  its keys are unique by construction. Each operation returns a
  `Step(state, result)`: the new state plus the value the Python method returns.
- `properties.dfy` — module `TaskManagementProperties`: lemmas that relate
  several operations. They cover last-write-wins, delete-after-create,
  rename divergence, search and filter membership, and assignee integrity.

Behaviours kept exactly as the code has them:

- `update_task` changes a task's `title` field but never re-keys it.
  `UpdateTask` keeps the key list unchanged, and `RenameKeepsKey` shows that
  afterwards, when the new title is not already a key, the new title cannot be
  deleted but the old one can.
- In `update_task`, `None` means "not supplied". So `completed=False` and an empty
  string overwrite the field. A due date or an assignee can be set but never cleared
  (`UpdateCanReopen`, `UpdateNeverClears`). The code tests `is not None`, so
  `completed=False` is distinguishable from an omitted argument.
- `create_task` on an existing title replaces the task at its original
  iteration position. On a new title it appends the task.
- Failures are signalled by `None` (register, login, update) or `False`
  (delete), which the model keeps as `Option` and `bool` results.

## Model

| member | source | states |
|---|---|---|
| TaskManagement.RegisterUser | taskmanager.py:25-30 | A taken username gives `None` and leaves the state untouched. Otherwise exactly that username is added, mapped to a user with the given fields; every existing user, the tasks and the session are unchanged |
| TaskManagement.Login | taskmanager.py:32-38 | Succeeds iff the username is registered and its stored password equals the supplied one. On success the session becomes that user; on failure nothing changes; users and tasks are never modified |
| TaskManagement.Logout | taskmanager.py:40-41 | Afterwards nobody is logged in; users and tasks are unchanged |
| TaskManagement.CreateTask | taskmanager.py:43-46 | The task stored under the title has the given title, description, due date and assignee and is not completed (the `Task` constructor, taskmanager.py:12-17, built by `Records.NewTask`). An existing title is replaced in place, so the key list is unchanged; a new title is appended. No other key's task changes, and users and session are unchanged |
| TaskManagement.UpdateTask | taskmanager.py:48-58 | An absent key gives `None` and no change. On a present key, each field is overwritten iff its argument is supplied; the task stays under the original key; the key order and every other task are unchanged |
| TaskManagement.DeleteTask | taskmanager.py:60-65 | Returns true iff the title was a key. Afterwards the title is not a key, every other key keeps its task, and the remaining keys keep their relative order |
| TaskManagement.SearchTasks | taskmanager.py:67-71 | The result is a subsequence of the task values, every element matches the keyword case-insensitively, and it has as many elements as there are matching tasks. By `Selection.SelectUnique` this is exactly the matching tasks in order |
| TaskManagement.FilterTasks | taskmanager.py:73-79 | The result is a subsequence of the task values, every element meets each supplied criterion, and it has as many elements as there are such tasks. This is exactly those tasks in order |
| TaskManagement.FilterIsOnePass | taskmanager.py:74-78 | The source's two successive filtering passes equal one pass with the conjunction of the supplied criteria |
| OrderedDict.Get | taskmanager.py:49 | `d.get(k)` is `None` iff `k` is not a key, and otherwise a value stored under `k` |
| OrderedDict.Put | taskmanager.py:45 | After `d[k] = v`, `k` maps to `v` and no other key's value changes. An existing key keeps its position; a new key is appended; unique keys stay unique |
| OrderedDict.Remove | taskmanager.py:62 | On a key, `del d[k]` shortens the dict by one. `Remove` is a no-op on a missing key, where Python raises `KeyError`; taskmanager.py:61 only reaches line 62 with a present key. No other key's value changes, and for a dict with unique keys `k` is gone afterwards |
| OrderedDict.RemoveKeepsOrder | taskmanager.py:60-65 | After `del d[k]` the keys are the old keys without `k`, in the same relative order |
| OrderedDict.PutPut | taskmanager.py:45 | Assigning the same key twice equals assigning the second value once |
| OrderedDict.RemovePutFresh | taskmanager.py:45-62 | Deleting a freshly added key restores the dict |
| OrderedDict.PutExistingValues | taskmanager.py:45 | Overwriting an existing key changes the value list only at that key's position |
| Selection.SelectIsSubseq | taskmanager.py:68 | A list comprehension's result is a subsequence of its source |
| Selection.SelectLength | taskmanager.py:68 | A list comprehension keeps one element per element satisfying the condition |
| Selection.SelectMembership | taskmanager.py:68 | A value is in a list comprehension's result iff it is in the source and satisfies the condition |
| Selection.SelectUnique | taskmanager.py:76 | Any subsequence of the source that satisfies the condition throughout and has the right length is the comprehension's result |
| Selection.SelectSelect | taskmanager.py:74-78 | Filtering by `p` then by `q` is filtering once by `p and q` |
| Text.Contains | taskmanager.py:69-71 | Decides Python's `needle in hay`: true iff some contiguous slice of `hay` equals `needle` |
| Text.LowerIdempotent | taskmanager.py:69 | `s.lower().lower() == s.lower()` |
| Text.LowerShape | taskmanager.py:69 | `s.lower()` has the same length as `s` and no upper-case ASCII letter |
| Text.EmptyOccursEverywhere | taskmanager.py:69 | `"" in s` holds for every string |
| TaskManagementProperties.RegisterTwiceRejected | taskmanager.py:25-30 | A second registration of a username is refused, and the first registration's password and name survive |
| TaskManagementProperties.LoginAfterRegister | taskmanager.py:25-38 | A newly registered user logs in with the password they registered with and becomes the session user |
| TaskManagementProperties.WrongPasswordRejected | taskmanager.py:32-38 | For a user just registered, logging in with a different password is refused, with no change to the state |
| TaskManagementProperties.LogoutIdempotent | taskmanager.py:40-41 | Logging out twice is logging out once |
| TaskManagementProperties.CreateLastWriteWins | taskmanager.py:43-46 | Two creations under one title leave the state that the second creation alone would leave |
| TaskManagementProperties.DeleteUndoesCreate | taskmanager.py:43-65 | Deleting a task just created under a fresh title returns true and restores the previous state |
| TaskManagementProperties.RenameKeepsKey | taskmanager.py:48-65 | After renaming to a new title that is not already a key, the task's title field is the new title. Deleting the new title fails and deleting the old title succeeds |
| TaskManagementProperties.UpdateNeverClears | taskmanager.py:53-54 | An update never removes an existing due date or assignee |
| TaskManagementProperties.UpdateCanReopen | taskmanager.py:55 | `completed=False` is a supplied value: it reopens a task, stored under the same key |
| TaskManagementProperties.UnknownTitleChangesNothing | taskmanager.py:48-65 | Updating an unknown title gives `None`, deleting it gives false, and neither changes anything |
| TaskManagementProperties.SearchMembership | taskmanager.py:67-71 | A task is found iff it is stored and matches the keyword |
| TaskManagementProperties.SearchCaseInsensitive | taskmanager.py:67-71 | Searching for a keyword and for its lower-cased form gives the same result |
| TaskManagementProperties.SearchEmptyKeyword | taskmanager.py:67-71 | The empty keyword finds every task, in order |
| TaskManagementProperties.UnassignedMatch | taskmanager.py:69-71 | A task without an assignee matches only through its title or description |
| TaskManagementProperties.CreatedTaskIsFound | taskmanager.py:43-71 | A newly created task is found by searching for its own title |
| TaskManagementProperties.FilterMembership | taskmanager.py:73-79 | A task is kept iff it is stored and meets every supplied criterion |
| TaskManagementProperties.FilterNoCriteria | taskmanager.py:73-79 | With both criteria absent the filter returns every task, in order |
| TaskManagementProperties.UpdatedTaskIsFiltered | taskmanager.py:48-79 | A task whose completion flag was just set by an update is kept by the filter on that flag |
| TaskManagementProperties.InitAssigneesRegistered | taskmanager.py:20-23 | The contract of `TaskManagement.Init`, the constructor: the initial system has no users, no tasks and no session, so no unregistered assignee |
| TaskManagementProperties.UserOpsKeepAssignees | taskmanager.py:25-41 | Register, login and logout keep every task's assignee equal to the registered user of that username |
| TaskManagementProperties.CreateKeepsAssignees | taskmanager.py:43-46 | Creating a task with a registered assignee, or none, keeps that integrity |
| TaskManagementProperties.UpdateKeepsAssignees | taskmanager.py:48-58 | Updating with a registered assignee, or none, keeps that integrity |
| TaskManagementProperties.DeleteKeepsAssignees | taskmanager.py:60-65 | Deleting a task keeps that integrity |

## Left out

- The Tkinter GUI (`TaskManagementGUI`, taskmanager.py:82-352) is not modelled. It covers widgets, dialogs and the main loop. It also does the boundary checks: empty-field checks, assignee lookup by username, and date parsing. One consequence is kept here only as a note: the update form passes its text fields as `""` when left blank. So the core overwrites the title and description with `""`, because only `None` means "not supplied".
- Date parsing with `datetime.strptime` is a foreign library call. A due date is the value `Date(year, month, day)`, and the core only compares dates for equality.
- `str.lower()` is modelled for ASCII letters only, not full Unicode case mapping. Non-ASCII characters are left unchanged.
- Python object identity is not modelled. Tasks returned by `create_task`, `update_task`, `search_tasks` and `filter_tasks` are the stored objects, so in Python a later `update_task` shows through them. The model's results are snapshots taken when they are returned. The stored table still agrees with Python, because only `update_task` changes a task, and it changes the stored one.
- Python's dynamic typing is not modelled. Arguments have their intended types: strings for text, `Option<Date>` for due dates, `Option<User>` for assignees and `bool` for the completion flag. Python's truthiness tests on `User` and `Task` objects (taskmanager.py:34, 50, 71) are always true for such objects, so they become presence tests.
- The `users` dict's iteration order is not modelled, because the core never iterates over it. It is a Dafny `map`.
- Passwords are stored and compared as plain text, as in the source. No hashing is added.
