/** The records of the project tracker (users and tasks), their enumerations,
    the outcomes of a menu action, and the one-line predicates the manager's
    authorization checks are built from. */
module Entities {

  /** C#'s `int`: the range `int.TryParse` can produce. */
  newtype int32 = x: int | -0x8000_0000 <= x < 0x8000_0000

  datatype Option<T> = None | Some(value: T)

  datatype UserRole = Manager | Employee

  datatype TaskStatus = ToDo | InProgress | Done

  datatype User = User(username: string, password: string, role: UserRole)

  datatype Task = Task(projectId: int32, title: string, description: string,
                       assignedTo: string, status: TaskStatus)

  /** Why a menu action was abandoned; each one leaves every list as it was. */
  datatype Error =
    | InvalidProjectId    // the project id did not parse as an integer
    | EmployeeNotFound    // no Employee has the requested username
    | DuplicateUsername   // registration under a username already in use
    | InvalidRole         // the role answer was neither "1" nor "2"
    | NoTasks             // the session user has no task to change
    | InvalidTaskNumber   // missing, unparsable or out of 1..count
    | InvalidStatus       // the status answer was not "1", "2" or "3"

  datatype Outcome = Pass | Fail(error: Error)

  /** Exact, case-sensitive match of both credentials. */
  predicate UserCanLogin(user: User, username: string, password: string) {
    user.username == username && user.password == password
  }

  predicate IsEmployee(user: User) {
    user.role == Employee
  }

  /** The manager's IsAssignedToCurrentUser, with the session user passed
      explicitly instead of read from the session field. */
  predicate IsAssignedTo(task: Task, user: User) {
    task.assignedTo == user.username
  }

  /** The answer the registration prompt offers for each role. */
  function RoleAnswer(role: UserRole): string {
    match role
    case Manager => "1"
    case Employee => "2"
  }

  /** The role a registration answer selects: exactly the offered answers
      are accepted, each for the role it is offered for. */
  function RoleChoice(choice: string): (r: Option<UserRole>)
    ensures forall role :: r == Some(role) <==> choice == RoleAnswer(role)
  {
    if choice == "1" then Some(Manager)
    else if choice == "2" then Some(Employee)
    else None
  }

  /** The answer the status prompt offers for each status. */
  function StatusAnswer(status: TaskStatus): string {
    match status
    case ToDo => "1"
    case InProgress => "2"
    case Done => "3"
  }

  /** The status a status-change answer selects: exactly the offered answers
      are accepted, each for the status it is offered for. */
  function StatusChoice(choice: string): (r: Option<TaskStatus>)
    ensures forall status :: r == Some(status) <==> choice == StatusAnswer(status)
  {
    if choice == "1" then Some(ToDo)
    else if choice == "2" then Some(InProgress)
    else if choice == "3" then Some(Done)
    else None
  }
}
