# Project tracker: a Dafny model of `ProjectManager`

The repository is a console task tracker. It has two roles, Manager and
Employee. All its logic sits in one class, `ProjectManager`
(`testovoeconcolR/Program.cs`). The class holds three fields:

- a list of users (username, cleartext password, role);
- a list of tasks (project id, title, description, assignee, status);
- the single session user.

Around these fields it implements login and logout, user registration, task
creation, the per-user task view and status changes. It loads both lists from
two JSON files at start-up and writes both back after every change.

This project models that class:

- `entities.dfy` (module `Entities`) holds the `User` and `Task` records and
  the `UserRole` and `TaskStatus` enumerations
  (`testovoeconcolR/Program.cs:8-35`; a new task's status is ToDo, line 34). It also holds the outcome of a
  menu action (`Outcome`, with one `Error` per abort path). It has the source's
  three one-line predicates: `UserCanLogin`, `IsEmployee`, and `IsAssignedTo`.
  `IsAssignedTo` is `IsAssignedToCurrentUser` with the session user passed in
  as a parameter. Last come the decoders for the menu answers: `RoleChoice`
  maps "1"/"2" and `StatusChoice` maps "1"/"2"/"3". `RoleAnswer` and
  `StatusAnswer` give the answer each prompt offers (lines 309 and 401-404).
  They are the reference definitions the two decoders are checked against.
- `lists.dfy` (module `Lists`) holds the specification functions over the two
  lists. `Authenticate` gives the position of the first user whose credentials
  match. `OwnTasks` is a user's tasks in list order. `OwnPositions` gives
  where those tasks sit in the task list. `UniqueUsernames` is the
  unique-username property: `RegisterUser` preserves it and
  `LoginMatchesStoredPassword` assumes it, but loaded files need not have it.
  The module also has the lemmas that say what these mean.
- `tracker.dfy` (module `Tracker`) holds the class `ProjectManager`. Its fields
  are `users`, `tasks` and `currentUser`. Each method has its `modifies` frame.
  It also has the loading logic (`Load`, `LoadData`, and `DefaultAdmin`, the
  admin/admin/Manager user seeded at lines 96-99) and a ghost history
  `saved` of every state a save wrote. Two client methods end the file. They
  walk through the first-run scenario: the seeded admin registers an employee
  and assigns a task, then the employee marks it Done (through the helper
  `MarkOnlyTaskDone`). The helper lemma `SingleTaskView` supplies the facts
  about a one-task list: it is its owner's whole view, its single position
  is 0, and a status write at that position gives the one-task list with the
  new status.

Each menu action is modelled without its prompts. The answers the prompts
would read are parameters:

- a parsed integer is an `Option<int32>`, where `None` means `int.TryParse`
  failed;
- a menu answer is a `string`.

Each action returns `Pass` or `Fail(error)`. In the source, status changes go
through a reference shared by the per-user list and `tasks`. Tasks are values
here, so `GetCurrentUserTasks` returns both the user's tasks and their
positions in `tasks`. The status change writes at that position. The function
`OwnPositions` and the lemmas `OwnPositionRank` and `OwnStatusChange` show
that this is the alias the source writes through.

Behaviours of `testovoeconcolR/Program.cs` worth noting, all modelled as the
code has them:

- `RegisterUser` rejects a role answer other than "1" or "2" (lines 312-321).
- `CreateTask` stops on an unparsable project id (lines 237-241).
- A failed `Login` leaves `currentUser` as it was (lines 119-130).
- None of the modelled methods checks the session's role. `Run` picks the
  menu by role (lines 159-166), so `RegisterUser` and `CreateTask` do not
  require a Manager session.

## Model

| member | source | states |
|---|---|---|
| `Entities.RoleChoice` | testovoeconcolR/Program.cs:309-321 | accepts exactly the answers the prompt offers, "1" for Manager and "2" for Employee, each for the role it is offered for; any other answer selects nothing |
| `Entities.StatusChoice` | testovoeconcolR/Program.cs:401-423 | accepts exactly the answers the prompt offers, "1" ToDo, "2" InProgress, "3" Done, each for the status it is offered for; any other answer selects nothing |
| `Entities.UserCanLogin` | testovoeconcolR/Program.cs:50-53 | defines a credential match: username and password both equal, case-sensitively (no contract of its own; its meaning is stated by `Lists.Authenticate` and `Lists.LoginMatchesStoredPassword`) |
| `Entities.IsEmployee` | testovoeconcolR/Program.cs:55-58 | defines the Employee test on a user's role (no contract of its own; used by `Lists.HasEmployee` and `CreateTask`) |
| `Entities.IsAssignedTo` | testovoeconcolR/Program.cs:60-63 | defines the ownership test, the task's assignee equal to the given user's username, with the session user passed in (no contract of its own; its meaning is stated by `Lists.OwnTasksExact`) |
| `Lists.UsernameTaken` | testovoeconcolR/Program.cs:297-304 | defines "some user has this username", the condition RegisterUser's scan rejects on (no contract of its own; used in RegisterUser's) |
| `Lists.HasEmployee` | testovoeconcolR/Program.cs:261-269 | defines "some user has this username and role Employee", the condition CreateTask's scan looks for (no contract of its own; used in CreateTask's) |
| `Tracker.ProjectManager.Valid` | testovoeconcolR/Program.cs:119-135 | defines the session invariant: an open session holds a user of the list, as only Login sets it and users are never removed; every method keeps it |
| `Lists.Authenticate` | testovoeconcolR/Program.cs:119-130 | the scan's result is the position of a user whose username and password both match exactly, with no matching user before it; it is None exactly when no user matches |
| `Lists.LoginMatchesStoredPassword` | testovoeconcolR/Program.cs:50-53 | with unique usernames, a registered user's username logs in iff the password equals the stored one (case-sensitive), and the login picks that very user |
| `Tracker.ProjectManager.Login` | testovoeconcolR/Program.cs:119-130 | succeeds iff some user matches both credentials; on success the session is the first such user in list order; on failure the session is left as it was; users and tasks are never touched (frame) and the session stays a registered user |
| `Tracker.ProjectManager.Logout` | testovoeconcolR/Program.cs:132-135 | the session becomes empty and nothing else changes (frame) |
| `Tracker.ProjectManager.RegisterUser` | testovoeconcolR/Program.cs:290-332 | fails with DuplicateUsername when the username is already present, else with InvalidRole when the answer is neither "1" nor "2", leaving users and the save history unchanged; otherwise appends exactly one user with the given username and password and role Manager for "1", Employee for "2", saves once, and keeps usernames unique |
| `Lists.AppendKeepsUnique` | testovoeconcolR/Program.cs:297-304 | appending a user whose username is not taken keeps all usernames distinct |
| `Tracker.ProjectManager.CreateTask` | testovoeconcolR/Program.cs:232-288 | fails with InvalidProjectId on an unparsed id, else with EmployeeNotFound unless some user has that username and role Employee, leaving tasks unchanged; otherwise appends exactly one task with the given project id, title, description and assignee and status ToDo, saves once; users and earlier tasks are untouched |
| `Lists.OwnTasks` | testovoeconcolR/Program.cs:347-358 | the per-user view is no longer than the task list and holds only tasks assigned to the user |
| `Lists.OwnTasksExact` | testovoeconcolR/Program.cs:60-63 | a task is in the per-user view iff it is in the task list and assigned to the user |
| `Lists.OwnPositions` | testovoeconcolR/Program.cs:350-356 | one position per entry of the per-user view, strictly increasing, each holding exactly that entry: the view is the stable (order-preserving) filter of the task list |
| `Lists.OwnPositionsComplete` | testovoeconcolR/Program.cs:350-356 | every position whose task is assigned to the user is among the own positions, so no assigned task is dropped |
| `Tracker.ProjectManager.GetCurrentUserTasks` | testovoeconcolR/Program.cs:347-358 | for an open session, returns exactly the session user's tasks in list order and their positions in `tasks`, without changing any state |
| `Lists.OwnPositionRank` | testovoeconcolR/Program.cs:393-399 | the k-th own position (from 0) has exactly k tasks of the same user before it, so it is the task numbered k+1 in the user's list |
| `Lists.OwnTasksAfterReplace` | testovoeconcolR/Program.cs:424 | replacing a task by one with the same assignee changes the owner's view in exactly the corresponding slot and leaves every other user's view unchanged |
| `Lists.OwnStatusChange` | testovoeconcolR/Program.cs:399-424 | writing a new status at the chosen own position changes the task that the user's view shows at that number, and only its status; other users' views stay unchanged |
| `Lists.OwnViewAfterStatusChange` | testovoeconcolR/Program.cs:399-424 | the owner's part of `OwnStatusChange`: after the write at the k-th own position, the owner's view differs from before only in entry k, whose status is the new one |
| `Tracker.ProjectManager.ChangeTaskStatus` | testovoeconcolR/Program.cs:380-427 | fails with NoTasks when the session user has no tasks, else with InvalidTaskNumber when the number is missing or outside 1..count, else with InvalidStatus for an answer other than "1"/"2"/"3", all leaving tasks and the save history unchanged; otherwise only the chosen task changes in `tasks`, and only its status (ToDo, InProgress or Done, from any status), the user's view changes in just that entry, and one save follows; users and the session are untouched |
| `Tracker.Load` | testovoeconcolR/Program.cs:85-117 | a read or parse failure on either file empties both lists; otherwise a missing users file seeds exactly admin/admin/Manager, a missing tasks file gives no tasks, and a parsed file gives its contents whether the other file is parsed or missing |
| `Tracker.ProjectManager.LoadData` | testovoeconcolR/Program.cs:85-117 | called, as in the source, only before any session exists; the lists become what `Load` gives for the two files, following the source's order: users file first, then tasks file, with the failure handler emptying both; the session invariant holds afterwards |
| `Tracker.ProjectManager.constructor` | testovoeconcolR/Program.cs:64-67 | a new manager has the loaded lists, no session, and nothing saved |
| `Tracker.ProjectManager.SaveData` | testovoeconcolR/Program.cs:69-83 | a save records both full lists, as they are now, as one more entry of the save history |
| `Tracker.FirstRunManagerSession` | testovoeconcolR/Program.cs:94-100 | from a first run without files: admin logs in, registers bob as Employee and assigns bob a ToDo task; assigning to an unknown user fails; the result is two users, one task and two saves |
| `Tracker.MarkOnlyTaskDone` | testovoeconcolR/Program.cs:380-427 | when the session user owns the only task, answering 1 and then "3" sets that task to Done and keeps it the user's whole view; only `tasks` and `saved` change, so users and the session stay as they were and the session invariant holds; one save records both lists as they now are |
| `Tracker.FirstRunEmployeeSession` | testovoeconcolR/Program.cs:380-427 | continuing, bob logs in and sets the task to Done; the task list shows it Done, bob's own view still holds it, the users are still admin and bob, the session invariant holds, and three saves were made |

## Left out

- The console front end is not modelled: `Run`, `ShowManagerMenu`,
  `ShowEmployeeMenu`, `ViewAllTasks` (called only from `ShowManagerMenu`,
  line 191), and `ViewMyTasks`, which `ChangeTaskStatus` calls only to print
  (line 390). `Run` loops forever, the two menus loop until logout, and `ViewAllTasks` and `ViewMyTasks` only print. The
  prompts and messages inside the modelled methods are left out too, including
  the list of available employees that `CreateTask` prints.
- JSON encoding and file access (Newtonsoft.Json, `File.Exists`,
  `File.ReadAllText`, `File.WriteAllText`) are not modelled. They are a foreign
  library plus file I/O. Each file's content at load time is given as
  `Stored`: missing, parsed into a list, or corrupt. No save/load round trip is
  stated.
- A file whose JSON is the literal `null` deserializes to a null list. The
  model has no null lists, so that case is not covered. Nor is a parsed list
  with a null entry, such as `[null]` (lines 92, 104). With such a list,
  `Login` (lines 121-123, 52) or `GetCurrentUserTasks` (lines 352, 62) throws
  an uncaught NullReferenceException and the process ends. `Parsed` holds
  only real users and tasks.
- Tracker.ProjectManager.SaveData: always records the snapshot. A failed write,
  which the source catches and reports, is not modelled.
- `int.TryParse` is not modelled. Its result is the `Option<int32>` parameter.
- `Console.ReadLine` returning null at end of input is not modelled. All
  strings are non-null.
- Answers are not read lazily. In the source, `RegisterUser` reads the password
  and role only after the duplicate check, and `ChangeTaskStatus` reads the
  status only after the number check. Here they are parameters given up front.
  The decisions and the resulting state are the same.
- Object identity is not modelled. Users and tasks are values, and the session
  holds a copy of the user. Users are never changed after creation, so this is
  equivalent. The task alias is modelled by positions, as described above.
- `Main` is not modelled. It is only the process entry point.
