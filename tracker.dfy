/** The project manager: the user list, the task list and the single session,
    with the decision logic of each menu action. Console prompts are replaced
    by parameters holding the answers already read; file contents by `Stored`
    values; each full save by an entry in the ghost history `saved`. */
module Tracker {
  import opened Entities
  import opened Lists

  /** What loading found for one file: absent, read and parsed, or a read or
      parse failure (an exception in the source). */
  datatype Stored<T> = Missing | Parsed(items: seq<T>) | Corrupt

  /** Both lists, as one full save writes them. */
  datatype Snapshot = Snapshot(users: seq<User>, tasks: seq<Task>)

  /** The only user seeded when no users file exists. */
  const DefaultAdmin := User("admin", "admin", Manager)

  /** The lists that loading produces from what was found for the two files:
      the users file is read first, and a failure on either file empties both. */
  function Load(usersFile: Stored<User>, tasksFile: Stored<Task>): (r: Snapshot)
    ensures usersFile.Corrupt? || tasksFile.Corrupt? ==> r == Snapshot([], [])
    ensures usersFile.Missing? && !tasksFile.Corrupt? ==> r.users == [DefaultAdmin]
    ensures tasksFile.Missing? && !usersFile.Corrupt? ==> r.tasks == []
    ensures usersFile.Parsed? && !tasksFile.Corrupt? ==> r.users == usersFile.items
    ensures tasksFile.Parsed? && !usersFile.Corrupt? ==> r.tasks == tasksFile.items
  {
    if usersFile.Corrupt? || tasksFile.Corrupt? then Snapshot([], [])
    else
      Snapshot(if usersFile.Parsed? then usersFile.items else [DefaultAdmin],
               if tasksFile.Parsed? then tasksFile.items else [])
  }

  class ProjectManager {
    var users: seq<User>
    var tasks: seq<Task>
    var currentUser: Option<User>
    /** Every state written by a save, oldest first. */
    ghost var saved: seq<Snapshot>

    /** The session, when open, belongs to a registered user. */
    ghost predicate Valid()
      reads this
    {
      currentUser.Some? ==> currentUser.value in users
    }

    constructor (usersFile: Stored<User>, tasksFile: Stored<Task>)
      ensures Valid()
      ensures Snapshot(users, tasks) == Load(usersFile, tasksFile)
      ensures currentUser == None && saved == []
    {
      users, tasks, currentUser, saved := [], [], None, [];
      new;
      LoadData(usersFile, tasksFile);
    }

    /** Called only while no session is open (by the constructor). */
    method LoadData(usersFile: Stored<User>, tasksFile: Stored<Task>)
      requires currentUser == None
      modifies this`users, this`tasks
      ensures Valid()
      ensures Snapshot(users, tasks) == Load(usersFile, tasksFile)
    {
      var failed := false;
      match usersFile {
        case Parsed(items) => users := items;
        case Missing => users := [DefaultAdmin];
        case Corrupt => failed := true;
      }
      if !failed {
        match tasksFile {
          case Parsed(items) => tasks := items;
          case Missing => tasks := [];
          case Corrupt => failed := true;
        }
      }
      if failed {
        users := [];
        tasks := [];
      }
    }

    /** Writes both lists out in full. */
    method SaveData()
      modifies this`saved
      ensures saved == old(saved) + [Snapshot(users, tasks)]
    {
      saved := saved + [Snapshot(users, tasks)];
    }

    /** Opens a session for the first user, in list order, whose credentials
        match; on a mismatch the previous session is kept. */
    method Login(username: string, password: string) returns (ok: bool)
      requires Valid()
      modifies this`currentUser
      ensures Valid()
      ensures ok <==> Authenticate(users, username, password).Some?
      ensures ok ==> currentUser == Some(users[Authenticate(users, username, password).value])
      ensures !ok ==> currentUser == old(currentUser)
    {
      var i := 0;
      while i < |users|
        invariant 0 <= i <= |users|
        invariant forall j :: 0 <= j < i ==> !UserCanLogin(users[j], username, password)
      {
        if UserCanLogin(users[i], username, password) {
          currentUser := Some(users[i]);
          return true;
        }
        i := i + 1;
      }
      return false;
    }

    method Logout()
      modifies this`currentUser
      ensures Valid()
      ensures currentUser == None
    {
      currentUser := None;
    }

    /** Creates a ToDo task for an existing Employee. */
    method CreateTask(projectId: Option<int32>, title: string, description: string, assignedTo: string)
      returns (r: Outcome)
      requires Valid()
      modifies this`tasks, this`saved
      ensures Valid()
      ensures r == if projectId.None? then Fail(InvalidProjectId)
                   else if !HasEmployee(users, assignedTo) then Fail(EmployeeNotFound)
                   else Pass
      ensures r.Fail? ==> tasks == old(tasks) && saved == old(saved)
      ensures r.Pass? ==> tasks == old(tasks) + [Task(projectId.value, title, description, assignedTo, ToDo)]
      ensures r.Pass? ==> saved == old(saved) + [Snapshot(users, tasks)]
    {
      if projectId.None? {
        return Fail(InvalidProjectId);
      }
      var employeeFound := false;
      var i := 0;
      while i < |users|
        invariant 0 <= i <= |users|
        invariant employeeFound ==> HasEmployee(users, assignedTo)
        invariant !employeeFound ==>
          forall j :: 0 <= j < i ==> !(users[j].username == assignedTo && IsEmployee(users[j]))
      {
        if users[i].username == assignedTo && IsEmployee(users[i]) {
          employeeFound := true;
          break;
        }
        i := i + 1;
      }
      if !employeeFound {
        return Fail(EmployeeNotFound);
      }
      tasks := tasks + [Task(projectId.value, title, description, assignedTo, ToDo)];
      SaveData();
      return Pass;
    }

    /** Registers a user under a username not yet in use, with the role the
        answer "1" (Manager) or "2" (Employee) selects. */
    method RegisterUser(username: string, password: string, roleChoice: string) returns (r: Outcome)
      requires Valid()
      modifies this`users, this`saved
      ensures Valid()
      ensures r == if UsernameTaken(old(users), username) then Fail(DuplicateUsername)
                   else if RoleChoice(roleChoice).None? then Fail(InvalidRole)
                   else Pass
      ensures r.Fail? ==> users == old(users) && saved == old(saved)
      ensures r.Pass? ==> users == old(users) + [User(username, password, RoleChoice(roleChoice).value)]
      ensures r.Pass? ==> saved == old(saved) + [Snapshot(users, tasks)]
      ensures UniqueUsernames(old(users)) ==> UniqueUsernames(users)
    {
      var i := 0;
      while i < |users|
        invariant 0 <= i <= |users|
        invariant forall j :: 0 <= j < i ==> users[j].username != username
      {
        if users[i].username == username {
          return Fail(DuplicateUsername);
        }
        i := i + 1;
      }
      var role: UserRole;
      if roleChoice == "1" {
        role := Manager;
      } else if roleChoice == "2" {
        role := Employee;
      } else {
        return Fail(InvalidRole);
      }
      var user := User(username, password, role);
      if UniqueUsernames(users) {
        AppendKeepsUnique(users, user);
      }
      users := users + [user];
      SaveData();
      return Pass;
    }

    /** The session user's tasks in list order, together with their positions
        in `tasks`: the entries the returned tasks alias. */
    method GetCurrentUserTasks() returns (myTasks: seq<Task>, refs: seq<nat>)
      requires currentUser.Some?
      ensures myTasks == OwnTasks(tasks, currentUser.value)
      ensures refs == OwnPositions(tasks, currentUser.value)
    {
      myTasks, refs := [], [];
      var i := 0;
      while i < |tasks|
        invariant 0 <= i <= |tasks|
        invariant myTasks == OwnTasks(tasks[..i], currentUser.value)
        invariant refs == OwnPositions(tasks[..i], currentUser.value)
      {
        assert tasks[..i + 1][..i] == tasks[..i];
        if IsAssignedTo(tasks[i], currentUser.value) {
          myTasks := myTasks + [tasks[i]];
          refs := refs + [i];
        }
        i := i + 1;
      }
      assert tasks[..i] == tasks;
    }

    /** Sets the status of the session user's `taskNumber`-th task (from 1)
        to the one the answer "1", "2" or "3" selects; the task is changed in
        place in `tasks`, and nothing else changes. */
    method ChangeTaskStatus(taskNumber: Option<int32>, statusChoice: string) returns (r: Outcome)
      requires Valid() && currentUser.Some?
      modifies this`tasks, this`saved
      ensures Valid()
      ensures r == var count := |OwnTasks(old(tasks), currentUser.value)|;
                   if count == 0 then Fail(NoTasks)
                   else if taskNumber.None? || !(1 <= taskNumber.value as int <= count) then Fail(InvalidTaskNumber)
                   else if StatusChoice(statusChoice).None? then Fail(InvalidStatus)
                   else Pass
      ensures r.Fail? ==> tasks == old(tasks) && saved == old(saved)
      ensures r.Pass? ==>
                var i := OwnPositions(old(tasks), currentUser.value)[taskNumber.value as int - 1];
                tasks == old(tasks)[i := old(tasks)[i].(status := StatusChoice(statusChoice).value)]
      ensures r.Pass? ==>
                var mine, k := OwnTasks(old(tasks), currentUser.value), taskNumber.value as int - 1;
                OwnTasks(tasks, currentUser.value) == mine[k := mine[k].(status := StatusChoice(statusChoice).value)]
      ensures r.Pass? ==> saved == old(saved) + [Snapshot(users, tasks)]
    {
      var myTasks, refs := GetCurrentUserTasks();
      if |myTasks| == 0 {
        return Fail(NoTasks);
      }
      if taskNumber.None? || taskNumber.value < 1 || taskNumber.value as int > |myTasks| {
        return Fail(InvalidTaskNumber);
      }
      var k := taskNumber.value as int - 1;
      var newStatus: TaskStatus;
      if statusChoice == "1" {
        newStatus := ToDo;
      } else if statusChoice == "2" {
        newStatus := InProgress;
      } else if statusChoice == "3" {
        newStatus := Done;
      } else {
        return Fail(InvalidStatus);
      }
      assert StatusChoice(statusChoice) == Some(newStatus);
      var i := refs[k];
      OwnViewAfterStatusChange(tasks, currentUser.value, k, newStatus);
      tasks := tasks[i := tasks[i].(status := newStatus)];
      SaveData();
      return Pass;
    }
  }

  /** First run, manager side: the seeded admin logs in, registers an
      employee, assigns a task to that employee, fails to assign one to an
      unknown user, and logs out. */
  method FirstRunManagerSession() returns (pm: ProjectManager)
    ensures fresh(pm) && pm.Valid() && pm.currentUser == None
    ensures pm.users == [DefaultAdmin, User("bob", "pw123", Employee)]
    ensures pm.tasks == [Task(1, "X", "Y", "bob", ToDo)]
    ensures |pm.saved| == 2
  {
    pm := new ProjectManager(Missing, Missing);
    var ok := pm.Login("admin", "admin");
    assert UserCanLogin(pm.users[0], "admin", "admin");
    assert ok && pm.currentUser == Some(DefaultAdmin);
    var r := pm.RegisterUser("bob", "pw123", "2");
    assert r == Pass;
    assert pm.users[1] == User("bob", "pw123", Employee);
    r := pm.CreateTask(Some(1), "X", "Y", "bob");
    assert r == Pass;
    r := pm.CreateTask(Some(2), "Z", "W", "nobody");
    assert r == Fail(EmployeeNotFound);
    pm.Logout();
  }

  /** First run, employee side: the new employee logs in and marks the task
      Done; the employee's own view still holds it. */
  method FirstRunEmployeeSession() returns (pm: ProjectManager)
    ensures pm.tasks == [Task(1, "X", "Y", "bob", Done)]
    ensures pm.currentUser == Some(User("bob", "pw123", Employee))
    ensures OwnTasks(pm.tasks, pm.currentUser.value) == pm.tasks
    ensures pm.Valid() && pm.users == [DefaultAdmin, User("bob", "pw123", Employee)]
    ensures |pm.saved| == 3
  {
    pm := FirstRunManagerSession();
    var ok := pm.Login("bob", "pw123");
    assert !UserCanLogin(pm.users[0], "bob", "pw123");
    assert UserCanLogin(pm.users[1], "bob", "pw123");
    assert Authenticate(pm.users, "bob", "pw123") == Some(1);
    MarkOnlyTaskDone(pm);
  }

  /** The session user's one and only task, numbered 1, is set to Done with
      the answer "3". */
  method MarkOnlyTaskDone(pm: ProjectManager)
    requires pm.Valid() && pm.currentUser.Some?
    requires |pm.tasks| == 1 && IsAssignedTo(pm.tasks[0], pm.currentUser.value)
    modifies pm`tasks, pm`saved
    ensures pm.Valid()
    ensures pm.tasks == [old(pm.tasks[0]).(status := Done)]
    ensures OwnTasks(pm.tasks, pm.currentUser.value) == pm.tasks
    ensures pm.saved == old(pm.saved) + [Snapshot(pm.users, pm.tasks)]
  {
    var t := pm.tasks[0];
    SingleTaskView(t, Done, pm.currentUser.value);
    assert pm.tasks == [t];
    assert StatusChoice("3") == Some(Done);
    var r := pm.ChangeTaskStatus(Some(1), "3");
    assert r == Pass;
  }

  /** A one-task list assigned to `user` is that user's whole view, before
      and after its status changes. */
  lemma SingleTaskView(t: Task, s: TaskStatus, user: User)
    requires IsAssignedTo(t, user)
    ensures OwnTasks([t], user) == [t] && OwnPositions([t], user) == [0]
    ensures [t][0 := t.(status := s)] == [t.(status := s)]
    ensures OwnTasks([t.(status := s)], user) == [t.(status := s)]
  {
    assert [t][..0] == [] && [t.(status := s)][..0] == [];
  }
}
