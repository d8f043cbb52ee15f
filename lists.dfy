/** Specification functions over the user and task lists, and the lemmas that
    say what they mean: which user a login picks, which tasks belong to a
    user and where they sit in the task list, and how a status change shows
    through the per-user view. */
module Lists {
  import opened Entities

  /** Position of the first user whose credentials match, in list order;
      None when nobody matches. */
  function Authenticate(users: seq<User>, username: string, password: string): (r: Option<nat>)
    ensures r.Some? ==> r.value < |users| && UserCanLogin(users[r.value], username, password)
    ensures r.Some? ==> forall j :: 0 <= j < r.value ==> !UserCanLogin(users[j], username, password)
    ensures r.None? ==> forall j :: 0 <= j < |users| ==> !UserCanLogin(users[j], username, password)
  {
    if users == [] then None
    else if UserCanLogin(users[0], username, password) then Some(0)
    else match Authenticate(users[1..], username, password)
      case None => None
      case Some(k) => Some(k + 1)
  }

  predicate UsernameTaken(users: seq<User>, username: string) {
    exists i :: 0 <= i < |users| && users[i].username == username
  }

  predicate HasEmployee(users: seq<User>, username: string) {
    exists i :: 0 <= i < |users| && users[i].username == username && IsEmployee(users[i])
  }

  predicate UniqueUsernames(users: seq<User>) {
    forall i, j :: 0 <= i < |users| && 0 <= j < |users| && users[i].username == users[j].username ==> i == j
  }

  /** The tasks assigned to `user`, in task-list order. */
  function OwnTasks(tasks: seq<Task>, user: User): (r: seq<Task>)
    ensures |r| <= |tasks|
    ensures forall k :: 0 <= k < |r| ==> IsAssignedTo(r[k], user)
  {
    if tasks == [] then []
    else
      var last := tasks[|tasks| - 1];
      OwnTasks(tasks[..|tasks| - 1], user) + (if IsAssignedTo(last, user) then [last] else [])
  }

  /** The own tasks are exactly the tasks of the list assigned to `user`. */
  lemma {:induction false} OwnTasksExact(tasks: seq<Task>, user: User, t: Task)
    ensures t in OwnTasks(tasks, user) <==> t in tasks && IsAssignedTo(t, user)
  {
    if tasks != [] {
      var n := |tasks| - 1;
      OwnTasksExact(tasks[..n], user, t);
      assert tasks == tasks[..n] + [tasks[n]];
    }
  }

  /** The positions in `tasks` of the tasks assigned to `user`: the list
      entries that the per-user view aliases. */
  function OwnPositions(tasks: seq<Task>, user: User): (r: seq<nat>)
    ensures |r| == |OwnTasks(tasks, user)|
    ensures forall k :: 0 <= k < |r| ==> r[k] < |tasks| && tasks[r[k]] == OwnTasks(tasks, user)[k]
    ensures forall k, l :: 0 <= k < l < |r| ==> r[k] < r[l]
  {
    if tasks == [] then []
    else
      var n := |tasks| - 1;
      var p := tasks[..n];
      var rest := OwnPositions(p, user);
      assert OwnTasks(tasks, user) == OwnTasks(p, user) + (if IsAssignedTo(tasks[n], user) then [tasks[n]] else []);
      assert forall k :: 0 <= k < |rest| ==> tasks[rest[k]] == p[rest[k]];
      rest + (if IsAssignedTo(tasks[n], user) then [n] else [])
  }

  /** Among unique usernames, a registered user can log in exactly with the
      stored password, and the login picks that user. */
  lemma LoginMatchesStoredPassword(users: seq<User>, i: nat, password: string)
    requires UniqueUsernames(users) && i < |users|
    ensures Authenticate(users, users[i].username, password).Some? <==> password == users[i].password
    ensures Authenticate(users, users[i].username, password).Some? ==>
              Authenticate(users, users[i].username, password).value == i
  {
    var r := Authenticate(users, users[i].username, password);
    if password == users[i].password {
      assert UserCanLogin(users[i], users[i].username, password);
    }
    if r.Some? {
      assert users[r.value].username == users[i].username;
    }
  }

  /** Appending a user under a fresh username keeps usernames unique. */
  lemma AppendKeepsUnique(users: seq<User>, u: User)
    requires UniqueUsernames(users) && !UsernameTaken(users, u.username)
    ensures UniqueUsernames(users + [u])
  {
    var s := users + [u];
    assert forall k :: 0 <= k < |users| ==> s[k] == users[k] && users[k].username != u.username;
  }

  /** The k-th own task (from 0) is preceded by exactly k own tasks. */
  lemma {:induction false} OwnPositionRank(tasks: seq<Task>, user: User, k: nat)
    requires k < |OwnPositions(tasks, user)|
    ensures |OwnTasks(tasks[..OwnPositions(tasks, user)[k]], user)| == k
  {
    var n := |tasks| - 1;
    var p := tasks[..n];
    var rest := OwnPositions(p, user);
    if k < |rest| {
      OwnPositionRank(p, user, k);
      assert tasks[..rest[k]] == p[..rest[k]];
    } else {
      assert OwnPositions(tasks, user)[k] == n;
      assert tasks[..n] == p;
    }
  }

  /** Replacing one task by another with the same assignee: the owner's view
      changes in exactly the matching slot, everybody else's not at all. */
  lemma {:induction false} OwnTasksAfterReplace(tasks: seq<Task>, i: nat, t: Task, user: User)
    requires i < |tasks| && t.assignedTo == tasks[i].assignedTo
    ensures IsAssignedTo(t, user) ==>
              |OwnTasks(tasks[..i], user)| < |OwnTasks(tasks, user)| &&
              OwnTasks(tasks[i := t], user) == OwnTasks(tasks, user)[|OwnTasks(tasks[..i], user)| := t]
    ensures !IsAssignedTo(t, user) ==> OwnTasks(tasks[i := t], user) == OwnTasks(tasks, user)
  {
    var n := |tasks| - 1;
    var p, x := tasks[..n], tasks[n];
    var s := tasks[i := t];
    var tail := if IsAssignedTo(x, user) then [x] else [];
    assert OwnTasks(tasks, user) == OwnTasks(p, user) + tail;
    if i < n {
      assert s[..n] == p[i := t] && s[n] == x;
      assert OwnTasks(s, user) == OwnTasks(p[i := t], user) + tail;
      OwnTasksAfterReplace(p, i, t, user);
      assert tasks[..i] == p[..i];
      if IsAssignedTo(t, user) {
        var a, j := OwnTasks(p, user), |OwnTasks(p[..i], user)|;
        assert a[j := t] + tail == (a + tail)[j := t];
      }
    } else {
      assert s[..n] == p && s[n] == t;
      assert OwnTasks(s, user) == OwnTasks(p, user) + (if IsAssignedTo(t, user) then [t] else []);
      assert tasks[..i] == p;
      if IsAssignedTo(t, user) {
        var a := OwnTasks(p, user);
        assert (a + [x])[|a| := t] == a + [t];
      }
    }
  }

  /** Every task assigned to `user` has its position among the own positions. */
  lemma {:induction false} OwnPositionsComplete(tasks: seq<Task>, user: User, i: nat)
    requires i < |tasks| && IsAssignedTo(tasks[i], user)
    ensures i in OwnPositions(tasks, user)
  {
    var n := |tasks| - 1;
    if i < n {
      OwnPositionsComplete(tasks[..n], user, i);
    }
  }

  /** The owner's view after the status change at the k-th own position. */
  lemma OwnViewAfterStatusChange(tasks: seq<Task>, user: User, k: nat, s: TaskStatus)
    requires k < |OwnTasks(tasks, user)|
    ensures var i := OwnPositions(tasks, user)[k];
      var mine := OwnTasks(tasks, user);
      i < |tasks| && OwnTasks(tasks[i := tasks[i].(status := s)], user) == mine[k := mine[k].(status := s)]
  {
    OwnStatusChange(tasks, user, k, s, user);
  }

  /** The status change of the chosen own task, seen through the task list:
      the position it writes holds the k-th own task, has exactly k own tasks
      before it, and afterwards the owner's view differs only in that task's
      status while other users' views are unchanged. */
  lemma OwnStatusChange(tasks: seq<Task>, user: User, k: nat, s: TaskStatus, other: User)
    requires k < |OwnTasks(tasks, user)|
    ensures var i := OwnPositions(tasks, user)[k];
      var after := tasks[i := tasks[i].(status := s)];
      && i < |tasks|
      && tasks[i] == OwnTasks(tasks, user)[k]
      && IsAssignedTo(tasks[i], user)
      && |OwnTasks(tasks[..i], user)| == k
      && OwnTasks(after, user) == OwnTasks(tasks, user)[k := OwnTasks(tasks, user)[k].(status := s)]
      && (other.username != user.username ==> OwnTasks(after, other) == OwnTasks(tasks, other))
  {
    var i := OwnPositions(tasks, user)[k];
    var t := tasks[i].(status := s);
    OwnPositionRank(tasks, user, k);
    OwnTasksAfterReplace(tasks, i, t, user);
    OwnTasksAfterReplace(tasks, i, t, other);
  }
}
