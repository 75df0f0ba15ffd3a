/**
 * A verified walk-through of one client's requests, from the handlers'
 * contracts alone: one user's whole session, from registering to deleting
 * the only task, with what each step shows on the dashboard.
 */
module Scenario {
  import opened Records
  import opened TodoApp

  /** Register `alice` on an empty store and log in with the same credentials. */
  method AliceSignsUp(scheme: PasswordScheme) returns (store: Store, registered: Response, loggedIn: Response)
    requires Sound(scheme)
    ensures fresh(store) && store.Valid()
    ensures registered == Redirect(LoginPage) && loggedIn == Redirect(DashboardPage)
    ensures store.session == Some(Session(1, "alice"))
    ensures store.tasks == [] && store.nextTaskId == 1
  {
    store := new Store(scheme);
    registered := store.Register("alice", "alice@x.com", "secret1", "secret1", 0);
    var alice := User(1, "alice", "alice@x.com", scheme.generate("secret1", 0));
    assert store.users == [alice];
    assert alice in store.users && scheme.check(alice.passwordHash, "secret1");
    loggedIn := store.Login("alice@x.com", "secret1");
    assert store.session == Some(Session(1, "alice"));
  }

  /** Add "Buy milk", complete it, delete it, looking at the dashboard after each step. */
  method MilkLifecycle(store: Store, now: int)
    returns (listed: Response, pending: Response, completed: Response, afterDelete: Response)
    requires store.Valid()
    requires store.session == Some(Session(1, "alice"))
    requires store.tasks == [] && store.nextTaskId == 1
    modifies store
    ensures listed.ShowDashboard? && listed.username == "alice" && listed.filterOption == "all"
    ensures listed.tasks == [Task(1, 1, "Buy milk", None, None, false, now)]
    ensures pending.ShowDashboard? && pending.tasks == []
    ensures completed.ShowDashboard? && completed.tasks == [Task(1, 1, "Buy milk", None, None, true, now)]
    ensures afterDelete.ShowDashboard? && afterDelete.tasks == []
  {
    var added := store.AddTask(Some("Buy milk"), None, Some(""), now);
    var milk := Task(1, 1, "Buy milk", None, None, false, now);
    assert store.tasks == [milk];
    var sql;
    listed, sql := store.Dashboard(None);
    SingleRow(listed.tasks, milk);

    var done := store.CompleteTask(1);
    var milkDone := milk.(isCompleted := true);
    assert store.tasks == [milkDone];
    pending, sql := store.Dashboard(Some("pending"));
    assert multiset(pending.tasks) == multiset{};
    completed, sql := store.Dashboard(Some("completed"));
    SingleRow(completed.tasks, milkDone);

    var deleted := store.DeleteTask(1);
    assert store.tasks == [];
    afterDelete, sql := store.Dashboard(Some("all"));
    assert multiset(afterDelete.tasks) == multiset{};
  }

  lemma SingleRow(rows: seq<Task>, t: Task)
    requires multiset(rows) == multiset{t}
    ensures rows == [t]
  {
    assert |rows| == 1;
    assert rows[0] in multiset(rows);
  }
}
