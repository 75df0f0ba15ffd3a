/**
 * The request handlers of the to-do application as methods on one store:
 * the `users` and `tasks` tables and the session of the client making the
 * requests. Requests run one after another. Every handler but `register`,
 * `login` and `logout` starts with the session gate (`'user_id' in session`)
 * and answers `Redirect(LoginPage)` without touching a table when it fails.
 */
module TodoApp {
  import opened Records
  import opened Auth
  import opened TaskTable
  import opened Forms
  import opened Ordering

  class Store {
    /** The password hashing library the application was built with. */
    const scheme: PasswordScheme
    var users: seq<User>
    var tasks: seq<Task>
    var session: Option<Session>
    /** The next values of the two AUTO_INCREMENT primary keys. */
    var nextUserId: nat
    var nextTaskId: nat

    /**
     * The invariant every handler keeps: unique ids, emails and usernames
     * (from the AUTO_INCREMENT counters and `register`'s pre-check), unique
     * task ids, every task's owner exists, and the session names an existing
     * user under that user's username.
     */
    ghost predicate Valid()
      reads this
    {
      && KeysUnique(users)
      && (forall u :: u in users ==> u.id < nextUserId)
      && IdsUnique(tasks)
      && (forall t :: t in tasks ==> t.id < nextTaskId)
      && (forall t :: t in tasks ==> HasUser(users, t.userId))
      && (session.Some? ==> exists u :: u in users && SessionOf(u) == session.value)
    }

    constructor (scheme: PasswordScheme)
      ensures Valid()
      ensures this.scheme == scheme && users == [] && tasks == [] && session == None
      ensures nextUserId == 1 && nextTaskId == 1
    {
      this.scheme := scheme;
      users, tasks, session := [], [], None;
      nextUserId, nextTaskId := 1, 1;
    }

    /** The session gate: `'user_id' in session`. */
    predicate SignedIn()
      reads this
    {
      session.Some?
    }

    /** `/`: signed-in clients go to the dashboard, the others to the login form. */
    method Index() returns (resp: Response)
      ensures SignedIn() ==> resp == Redirect(DashboardPage)
      ensures !SignedIn() ==> resp == Redirect(LoginPage)
    {
      if SignedIn() {
        resp := Redirect(DashboardPage);
      } else {
        resp := Redirect(LoginPage);
      }
    }

    /** POST `/register`. */
    method Register(username: string, email: string, password: string, confirmPassword: string, salt: Salt)
      returns (resp: Response)
      requires Valid()
      modifies this`users, this`nextUserId
      ensures Valid()
      ensures PasswordProblem(password, confirmPassword).Some? ==>
        resp == RenderError(RegisterPage, PasswordProblem(password, confirmPassword).value)
        && users == old(users) && nextUserId == old(nextUserId)
      ensures (PasswordProblem(password, confirmPassword).None?
               && exists u :: u in old(users) && Clashes(u, email, username)) ==>
        resp == RenderError(RegisterPage, USER_EXISTS)
        && users == old(users) && nextUserId == old(nextUserId)
      ensures (PasswordProblem(password, confirmPassword).None?
               && forall u :: u in old(users) ==> !Clashes(u, email, username)) ==>
        resp == Redirect(LoginPage)
        && users == old(users) + [User(old(nextUserId), username, email, scheme.generate(password, salt))]
        && nextUserId == old(nextUserId) + 1
    {
      var problem := PasswordProblem(password, confirmPassword);
      if problem.Some? {
        return RenderError(RegisterPage, problem.value);
      }
      var existing := FindByEmailOrUsername(users, email, username);
      if existing.Some? {
        return RenderError(RegisterPage, USER_EXISTS);
      }
      var user := User(nextUserId, username, email, scheme.generate(password, salt));
      assert forall t :: t in tasks ==> HasUser(users + [user], t.userId) by {
        forall t | t in tasks ensures HasUser(users + [user], t.userId) {
          var v :| v in users && v.id == t.userId;
          assert v in users + [user];
        }
      }
      assert session.Some? ==> exists u :: u in users + [user] && SessionOf(u) == session.value by {
        if session.Some? {
          var v :| v in users && SessionOf(v) == session.value;
          assert v in users + [user];
        }
      }
      RegisterKeepsKeysUnique(users, user);
      users := users + [user];
      nextUserId := nextUserId + 1;
      resp := Redirect(LoginPage);
    }

    /** POST `/login`. Both ways of failing give the same message. */
    method Login(email: string, password: string) returns (resp: Response)
      requires Valid()
      modifies this`session
      ensures Valid()
      ensures resp == Redirect(DashboardPage) <==>
        exists u :: u in users && u.email == email && scheme.check(u.passwordHash, password)
      ensures resp == Redirect(DashboardPage) ==>
        exists u :: u in users && u.email == email && scheme.check(u.passwordHash, password)
                    && session == Some(SessionOf(u))
      ensures resp != Redirect(DashboardPage) ==>
        resp == RenderError(LoginPage, INVALID_LOGIN) && session == old(session)
    {
      var user := FindByEmail(users, email);
      if user.Some? && scheme.check(user.value.passwordHash, password) {
        session := Some(SessionOf(user.value));
        resp := Redirect(DashboardPage);
      } else {
        forall u | u in users && u.email == email
          ensures !scheme.check(u.passwordHash, password)
        {
          FindByEmailOfMember(users, u);
        }
        resp := RenderError(LoginPage, INVALID_LOGIN);
      }
    }

    /**
     * GET `/dashboard?filter=...`: builds the query text clause by clause
     * and answers with the signed-in user's rows it selects, newest first.
     */
    method Dashboard(filterArg: Option<string>) returns (resp: Response, sql: string)
      ensures !SignedIn() ==> resp == Redirect(LoginPage)
      ensures SignedIn() ==>
        var option := filterArg.GetOr(DEFAULT_FILTER);
        && sql == SELECT_OWN_TASKS + CompletionClause(CompletionFilter(option)) + ORDER_NEWEST_FIRST
        && resp.ShowDashboard?
        && resp.username == session.value.username
        && resp.filterOption == option
        && NewestFirst(resp.tasks)
        && multiset(resp.tasks) == multiset(SelectTasks(tasks, session.value.userId, CompletionFilter(option)))
        && (forall t :: t in resp.tasks <==>
              t in tasks && t.userId == session.value.userId && PassesFilter(t, CompletionFilter(option)))
    {
      if !SignedIn() {
        return Redirect(LoginPage), "";
      }
      var filterOption := filterArg.GetOr(DEFAULT_FILTER);
      sql := SELECT_OWN_TASKS;
      var completed: Option<bool> := None;
      if filterOption == "completed" {
        sql := sql + ONLY_COMPLETED;
        completed := Some(true);
      } else if filterOption == "pending" {
        sql := sql + ONLY_PENDING;
        completed := Some(false);
      }
      sql := sql + ORDER_NEWEST_FIRST;
      var rows := SortNewestFirst(SelectTasks(tasks, session.value.userId, completed));
      forall t ensures t in rows <==> t in multiset(rows) {
      }
      resp := ShowDashboard(rows, session.value.username, filterOption);
    }

    /** POST `/add_task`. */
    method AddTask(title: Option<string>, description: Option<string>, reminderDate: Option<string>, now: int)
      returns (resp: Response)
      requires Valid()
      modifies this`tasks, this`nextTaskId
      ensures Valid()
      ensures !SignedIn() ==> resp == Redirect(LoginPage)
      ensures SignedIn() ==> resp == Redirect(DashboardPage)
      ensures !SignedIn() || !TitleGiven(title) ==> tasks == old(tasks) && nextTaskId == old(nextTaskId)
      ensures SignedIn() && TitleGiven(title) ==>
        tasks == old(tasks) + [Task(old(nextTaskId), session.value.userId, title.value, description,
                                    NormalizeReminder(reminderDate), false, now)]
        && nextTaskId == old(nextTaskId) + 1
      ensures SignedIn() ==>
        forall other :: other != session.value.userId ==> OwnedBy(tasks, other) == OwnedBy(old(tasks), other)
    {
      if !SignedIn() {
        return Redirect(LoginPage);
      }
      if !TitleGiven(title) {
        return Redirect(DashboardPage);
      }
      var uid := session.value.userId;
      var task := Task(nextTaskId, uid, title.value, description, NormalizeReminder(reminderDate), false, now);
      ghost var owner :| owner in users && SessionOf(owner) == session.value;
      assert HasUser(users, uid) by {
        assert owner.id == uid;
      }
      forall other | other != uid ensures OwnedBy(tasks + [task], other) == OwnedBy(tasks, other) {
        InsertKeepsOthers(tasks, task, other);
      }
      assert IdsUnique(tasks + [task]) by {
        var all := tasks + [task];
        forall i, j | 0 <= i < j < |all| ensures all[i].id != all[j].id {
          if j == |tasks| {
            assert all[i] in tasks;
          }
        }
      }
      tasks := tasks + [task];
      nextTaskId := nextTaskId + 1;
      resp := Redirect(DashboardPage);
    }

    /** GET `/edit_task/<id>`: the form is shown only for a row the user owns. */
    method EditTaskForm(taskId: nat) returns (resp: Response)
      ensures !SignedIn() ==> resp == Redirect(LoginPage)
      ensures SignedIn() ==> (resp == Redirect(DashboardPage) <==>
        forall t :: t in tasks ==> !Scoped(t, taskId, session.value.userId))
      ensures SignedIn() && resp != Redirect(DashboardPage) ==>
        resp.ShowEditForm? && resp.task in tasks && Scoped(resp.task, taskId, session.value.userId)
    {
      if !SignedIn() {
        return Redirect(LoginPage);
      }
      var task := SelectScoped(tasks, taskId, session.value.userId);
      if task.None? {
        return Redirect(DashboardPage);
      }
      resp := ShowEditForm(task.value);
    }

    /**
     * POST `/edit_task/<id>`: the ownership-scoped SELECT, then an UPDATE
     * keyed by the id alone. Because ids are unique, that UPDATE changes
     * exactly the row the SELECT found.
     */
    method EditTask(taskId: nat, title: string, description: Option<string>, reminderDate: Option<string>)
      returns (resp: Response)
      requires Valid()
      modifies this`tasks
      ensures Valid()
      ensures !SignedIn() ==> resp == Redirect(LoginPage) && tasks == old(tasks)
      ensures SignedIn() ==>
        resp == Redirect(DashboardPage)
        && tasks == UpdateScoped(old(tasks), taskId, session.value.userId, title, description, NormalizeReminder(reminderDate))
      ensures SignedIn() && SelectScoped(old(tasks), taskId, session.value.userId).None? ==> tasks == old(tasks)
      ensures SignedIn() ==>
        forall other :: other != session.value.userId ==> OwnedBy(tasks, other) == OwnedBy(old(tasks), other)
    {
      if !SignedIn() {
        return Redirect(LoginPage);
      }
      var uid := session.value.userId;
      var reminder := NormalizeReminder(reminderDate);
      forall other | other != uid
        ensures OwnedBy(UpdateScoped(tasks, taskId, uid, title, description, reminder), other) == OwnedBy(tasks, other)
      {
        UpdateScopedKeepsOthers(tasks, taskId, uid, title, description, reminder, other);
      }
      var task := SelectScoped(tasks, taskId, uid);
      if task.None? {
        UpdateScopedNoMatch(tasks, taskId, uid, title, description, reminder);
        return Redirect(DashboardPage);
      }
      OnlyRowWithId(tasks, taskId, uid);
      UpdateByIdIsScoped(tasks, taskId, uid, title, description, reminder);
      UpdateScopedKeepsKeys(tasks, taskId, uid, title, description, reminder);
      KeysKeepInvariant(tasks, UpdateById(tasks, taskId, title, description, reminder));
      tasks := UpdateById(tasks, taskId, title, description, reminder);
      resp := Redirect(DashboardPage);
    }

    /** GET `/complete_task/<id>`. */
    method CompleteTask(taskId: nat) returns (resp: Response)
      requires Valid()
      modifies this`tasks
      ensures Valid()
      ensures !SignedIn() ==> resp == Redirect(LoginPage) && tasks == old(tasks)
      ensures SignedIn() ==>
        resp == Redirect(DashboardPage) && tasks == CompleteScoped(old(tasks), taskId, session.value.userId)
      ensures SignedIn() ==>
        forall other :: other != session.value.userId ==> OwnedBy(tasks, other) == OwnedBy(old(tasks), other)
    {
      if !SignedIn() {
        return Redirect(LoginPage);
      }
      var uid := session.value.userId;
      forall other | other != uid
        ensures OwnedBy(CompleteScoped(tasks, taskId, uid), other) == OwnedBy(tasks, other)
      {
        CompleteScopedKeepsOthers(tasks, taskId, uid, other);
      }
      CompleteScopedKeepsKeys(tasks, taskId, uid);
      KeysKeepInvariant(tasks, CompleteScoped(tasks, taskId, uid));
      tasks := CompleteScoped(tasks, taskId, uid);
      resp := Redirect(DashboardPage);
    }

    /** GET `/delete_task/<id>`. */
    method DeleteTask(taskId: nat) returns (resp: Response)
      requires Valid()
      modifies this`tasks
      ensures Valid()
      ensures !SignedIn() ==> resp == Redirect(LoginPage) && tasks == old(tasks)
      ensures SignedIn() ==>
        resp == Redirect(DashboardPage) && tasks == DeleteScoped(old(tasks), taskId, session.value.userId)
      ensures SignedIn() ==>
        forall other :: other != session.value.userId ==> OwnedBy(tasks, other) == OwnedBy(old(tasks), other)
    {
      if !SignedIn() {
        return Redirect(LoginPage);
      }
      var uid := session.value.userId;
      forall other | other != uid
        ensures OwnedBy(DeleteScoped(tasks, taskId, uid), other) == OwnedBy(tasks, other)
      {
        DeleteScopedKeepsOthers(tasks, taskId, uid, other);
      }
      DeleteScopedKeepsIdsUnique(tasks, taskId, uid);
      forall t | t in DeleteScoped(tasks, taskId, uid) ensures t in tasks {
        DeleteScopedMembers(tasks, taskId, uid, t);
      }
      tasks := DeleteScoped(tasks, taskId, uid);
      resp := Redirect(DashboardPage);
    }

    /** GET `/logout`: the session is cleared whatever it held. */
    method Logout() returns (resp: Response)
      requires Valid()
      modifies this`session
      ensures Valid()
      ensures session == None && resp == Redirect(LoginPage)
    {
      session := None;
      resp := Redirect(LoginPage);
    }

    /** A table rewritten row for row with the same ids and owners keeps the invariant. */
    lemma KeysKeepInvariant(before: seq<Task>, after: seq<Task>)
      requires SameKeys(before, after)
      requires IdsUnique(before)
      requires forall t :: t in before ==> t.id < nextTaskId && HasUser(users, t.userId)
      ensures IdsUnique(after)
      ensures forall t :: t in after ==> t.id < nextTaskId && HasUser(users, t.userId)
    {
      forall t | t in after ensures t.id < nextTaskId && HasUser(users, t.userId) {
        var k :| 0 <= k < |after| && after[k] == t;
        assert before[k] in before;
      }
    }
  }
}
