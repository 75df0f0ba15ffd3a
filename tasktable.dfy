/**
 * The SQL statements the task handlers issue against the `tasks` table,
 * each as a function from the table before to the table (or the rows)
 * after, and what those statements promise: which rows they touch, that
 * the rows of every other user are left alone, idempotence.
 */
module TaskTable {
  import opened Records

  /** The rows of one user, in table order: what that user can ever see. */
  function OwnedBy(ts: seq<Task>, uid: nat): (r: seq<Task>)
    ensures |r| <= |ts|
    ensures forall t :: t in r ==> t in ts && t.userId == uid
  {
    if ts == [] then []
    else (if ts[0].userId == uid then [ts[0]] else []) + OwnedBy(ts[1..], uid)
  }

  /** The primary key of `tasks`. */
  ghost predicate IdsUnique(ts: seq<Task>) {
    forall i, j | 0 <= i < j < |ts| :: ts[i].id != ts[j].id
  }

  /** The ownership-scoped WHERE clause `id = %s AND user_id = %s`. */
  predicate Scoped(t: Task, id: nat, uid: nat) {
    t.id == id && t.userId == uid
  }

  /** `SELECT * FROM tasks WHERE id = %s AND user_id = %s`, then `fetchone`. */
  function SelectScoped(ts: seq<Task>, id: nat, uid: nat): (r: Option<Task>)
    ensures r.Some? ==> r.value in ts && Scoped(r.value, id, uid)
    ensures r.None? <==> forall t :: t in ts ==> !Scoped(t, id, uid)
  {
    if ts == [] then None
    else if Scoped(ts[0], id, uid) then Some(ts[0])
    else SelectScoped(ts[1..], id, uid)
  }

  /** `UPDATE tasks SET is_completed = 1 WHERE id = %s AND user_id = %s`. */
  function CompleteScoped(ts: seq<Task>, id: nat, uid: nat): (r: seq<Task>)
    ensures |r| == |ts|
    ensures forall t :: t in r && !t.isCompleted ==> t in ts
  {
    if ts == [] then []
    else ([if Scoped(ts[0], id, uid) then ts[0].(isCompleted := true) else ts[0]]
      + CompleteScoped(ts[1..], id, uid))
  }

  /** `DELETE FROM tasks WHERE id = %s AND user_id = %s`. */
  function DeleteScoped(ts: seq<Task>, id: nat, uid: nat): (r: seq<Task>)
    ensures |r| <= |ts|
    ensures forall t :: t in r ==> t in ts
  {
    if ts == [] then []
    else (if Scoped(ts[0], id, uid) then [] else [ts[0]]) + DeleteScoped(ts[1..], id, uid)
  }

  /** The row `edit_task` writes: new title, description and reminder date. */
  function Edited(t: Task, title: string, description: Option<string>, reminderDate: Option<string>): Task {
    t.(title := title, description := description, reminderDate := reminderDate)
  }

  /**
   * `UPDATE tasks SET title = %s, description = %s, reminder_date = %s WHERE id = %s`:
   * as written, the WHERE clause names the id only, not the owner.
   */
  function UpdateById(ts: seq<Task>, id: nat, title: string, description: Option<string>, reminderDate: Option<string>): (r: seq<Task>)
    ensures |r| == |ts|
    ensures forall t :: t in r && t.id == id ==>
      t.title == title && t.description == description && t.reminderDate == reminderDate
  {
    if ts == [] then []
    else ([if ts[0].id == id then Edited(ts[0], title, description, reminderDate) else ts[0]]
      + UpdateById(ts[1..], id, title, description, reminderDate))
  }

  /** The same UPDATE with the ownership predicate added: the reference `UpdateById` is compared with. */
  function UpdateScoped(ts: seq<Task>, id: nat, uid: nat, title: string, description: Option<string>, reminderDate: Option<string>): (r: seq<Task>)
    ensures |r| == |ts|
  {
    if ts == [] then []
    else ([if Scoped(ts[0], id, uid) then Edited(ts[0], title, description, reminderDate) else ts[0]]
      + UpdateScoped(ts[1..], id, uid, title, description, reminderDate))
  }

  lemma {:induction false} OwnedByAppend(a: seq<Task>, b: seq<Task>, uid: nat)
    ensures OwnedBy(a + b, uid) == OwnedBy(a, uid) + OwnedBy(b, uid)
  {
    if a == [] {
      assert a + b == b;
    } else {
      assert (a + b)[0] == a[0];
      assert (a + b)[1..] == a[1..] + b;
      OwnedByAppend(a[1..], b, uid);
    }
  }

  /** Everything `OwnedBy` returns belongs to that user and comes from the table. */
  lemma {:induction false} OwnedByMembers(ts: seq<Task>, uid: nat, t: Task)
    ensures t in OwnedBy(ts, uid) <==> t in ts && t.userId == uid
  {
    if ts != [] {
      OwnedByMembers(ts[1..], uid, t);
      assert ts == [ts[0]] + ts[1..];
    }
  }

  /** An INSERT leaves the rows of every user but the new row's owner as they were. */
  lemma InsertKeepsOthers(ts: seq<Task>, t: Task, uid: nat)
    requires uid != t.userId
    ensures OwnedBy(ts + [t], uid) == OwnedBy(ts, uid)
  {
    OwnedByAppend(ts, [t], uid);
    assert OwnedBy([t], uid) == [] by {
      assert [t][1..] == [];
    }
  }

  /** The new row is the last row its owner sees. */
  lemma InsertIsOwnersLast(ts: seq<Task>, t: Task)
    ensures OwnedBy(ts + [t], t.userId) == OwnedBy(ts, t.userId) + [t]
  {
    OwnedByAppend(ts, [t], t.userId);
    assert [t][1..] == [];
  }

  // ---- complete_task ----

  /** Completing touches exactly the scoped row, and only its completion flag. */
  lemma {:induction false} CompleteScopedAt(ts: seq<Task>, id: nat, uid: nat, i: nat)
    requires i < |ts|
    ensures |CompleteScoped(ts, id, uid)| == |ts|
    ensures CompleteScoped(ts, id, uid)[i] ==
      if Scoped(ts[i], id, uid) then ts[i].(isCompleted := true) else ts[i]
  {
    if i > 0 {
      CompleteScopedAt(ts[1..], id, uid, i - 1);
    } else if |ts| > 1 {
      CompleteScopedAt(ts[1..], id, uid, 0);
    }
  }

  lemma {:induction false} CompleteScopedIdempotent(ts: seq<Task>, id: nat, uid: nat)
    ensures CompleteScoped(CompleteScoped(ts, id, uid), id, uid) == CompleteScoped(ts, id, uid)
  {
    if ts != [] {
      CompleteScopedIdempotent(ts[1..], id, uid);
    }
  }

  /** With no row matching both the id and the owner, completing changes nothing. */
  lemma {:induction false} CompleteScopedNoMatch(ts: seq<Task>, id: nat, uid: nat)
    requires SelectScoped(ts, id, uid).None?
    ensures CompleteScoped(ts, id, uid) == ts
  {
    if ts != [] {
      assert ts[0] in ts;
      CompleteScopedNoMatch(ts[1..], id, uid);
    }
  }

  lemma {:induction false} CompleteScopedKeepsOthers(ts: seq<Task>, id: nat, uid: nat, other: nat)
    requires other != uid
    ensures OwnedBy(CompleteScoped(ts, id, uid), other) == OwnedBy(ts, other)
  {
    if ts != [] {
      CompleteScopedKeepsOthers(ts[1..], id, uid, other);
    }
  }

  /** Two tables with the same ids and owners, row for row. */
  ghost predicate SameKeys(a: seq<Task>, b: seq<Task>) {
    |a| == |b| && forall i | 0 <= i < |a| :: a[i].id == b[i].id && a[i].userId == b[i].userId
  }

  lemma CompleteScopedKeepsKeys(ts: seq<Task>, id: nat, uid: nat)
    ensures SameKeys(ts, CompleteScoped(ts, id, uid))
  {
    if ts == [] {
    } else {
      forall i | 0 <= i < |ts|
        ensures i < |CompleteScoped(ts, id, uid)|
        ensures ts[i].id == CompleteScoped(ts, id, uid)[i].id && ts[i].userId == CompleteScoped(ts, id, uid)[i].userId
      {
        CompleteScopedAt(ts, id, uid, i);
      }
      CompleteScopedAt(ts, id, uid, 0);
    }
  }

  // ---- delete_task ----

  /** Deleting removes exactly the scoped rows and keeps every other row. */
  lemma {:induction false} DeleteScopedMembers(ts: seq<Task>, id: nat, uid: nat, t: Task)
    ensures t in DeleteScoped(ts, id, uid) <==> t in ts && !Scoped(t, id, uid)
  {
    if ts != [] {
      DeleteScopedMembers(ts[1..], id, uid, t);
      assert ts == [ts[0]] + ts[1..];
    }
  }

  lemma {:induction false} DeleteScopedIdempotent(ts: seq<Task>, id: nat, uid: nat)
    ensures DeleteScoped(DeleteScoped(ts, id, uid), id, uid) == DeleteScoped(ts, id, uid)
  {
    if ts != [] {
      var rest := DeleteScoped(ts[1..], id, uid);
      DeleteScopedIdempotent(ts[1..], id, uid);
      if Scoped(ts[0], id, uid) {
        assert DeleteScoped(ts, id, uid) == rest;
      } else {
        var r := [ts[0]] + rest;
        assert r[0] == ts[0] && r[1..] == rest;
        assert DeleteScoped(r, id, uid) == [ts[0]] + DeleteScoped(rest, id, uid);
      }
    }
  }

  lemma {:induction false} DeleteScopedNoMatch(ts: seq<Task>, id: nat, uid: nat)
    requires SelectScoped(ts, id, uid).None?
    ensures DeleteScoped(ts, id, uid) == ts
  {
    if ts != [] {
      assert ts[0] in ts;
      DeleteScopedNoMatch(ts[1..], id, uid);
      assert ts == [ts[0]] + ts[1..];
    }
  }

  lemma {:induction false} DeleteScopedKeepsOthers(ts: seq<Task>, id: nat, uid: nat, other: nat)
    requires other != uid
    ensures OwnedBy(DeleteScoped(ts, id, uid), other) == OwnedBy(ts, other)
  {
    if ts != [] {
      var rest := DeleteScoped(ts[1..], id, uid);
      DeleteScopedKeepsOthers(ts[1..], id, uid, other);
      OwnedByAppend(if Scoped(ts[0], id, uid) then [] else [ts[0]], rest, other);
      assert [ts[0]][1..] == [];
    }
  }

  lemma IdsUniqueTail(ts: seq<Task>)
    requires ts != [] && IdsUnique(ts)
    ensures IdsUnique(ts[1..])
    ensures forall s :: s in ts[1..] ==> s.id != ts[0].id
  {
    forall i, j | 0 <= i < j < |ts[1..]| ensures ts[1..][i].id != ts[1..][j].id {
      assert ts[1..][i] == ts[i + 1] && ts[1..][j] == ts[j + 1];
    }
    forall s | s in ts[1..] ensures s.id != ts[0].id {
      var k :| 0 <= k < |ts[1..]| && ts[1..][k] == s;
      assert ts[k + 1] == s;
    }
  }

  lemma IdsUniqueCons(t: Task, rest: seq<Task>)
    requires IdsUnique(rest)
    requires forall s :: s in rest ==> s.id != t.id
    ensures IdsUnique([t] + rest)
  {
    var r := [t] + rest;
    forall i, j | 0 <= i < j < |r| ensures r[i].id != r[j].id {
      if i == 0 {
        assert r[j] == rest[j - 1];
        assert r[j] in rest;
      } else {
        assert r[i] == rest[i - 1] && r[j] == rest[j - 1];
      }
    }
  }

  lemma {:induction false} DeleteScopedKeepsIdsUnique(ts: seq<Task>, id: nat, uid: nat)
    requires IdsUnique(ts)
    ensures IdsUnique(DeleteScoped(ts, id, uid))
  {
    if ts != [] {
      var rest := DeleteScoped(ts[1..], id, uid);
      IdsUniqueTail(ts);
      DeleteScopedKeepsIdsUnique(ts[1..], id, uid);
      if Scoped(ts[0], id, uid) {
        assert DeleteScoped(ts, id, uid) == rest;
      } else {
        forall s | s in rest ensures s.id != ts[0].id {
          DeleteScopedMembers(ts[1..], id, uid, s);
        }
        IdsUniqueCons(ts[0], rest);
      }
    }
  }

  // ---- edit_task ----

  lemma {:induction false} UpdateScopedAt(ts: seq<Task>, id: nat, uid: nat, title: string, description: Option<string>, reminderDate: Option<string>, i: nat)
    requires i < |ts|
    ensures |UpdateScoped(ts, id, uid, title, description, reminderDate)| == |ts|
    ensures UpdateScoped(ts, id, uid, title, description, reminderDate)[i] ==
      if Scoped(ts[i], id, uid) then Edited(ts[i], title, description, reminderDate) else ts[i]
  {
    if i > 0 {
      UpdateScopedAt(ts[1..], id, uid, title, description, reminderDate, i - 1);
    } else if |ts| > 1 {
      UpdateScopedAt(ts[1..], id, uid, title, description, reminderDate, 0);
    }
  }

  /**
   * When every row carrying the id belongs to `uid` (true once the scoped
   * SELECT found the row and ids are unique), the id-only UPDATE does what
   * the ownership-scoped one would.
   */
  lemma {:induction false} UpdateByIdIsScoped(ts: seq<Task>, id: nat, uid: nat, title: string, description: Option<string>, reminderDate: Option<string>)
    requires forall t :: t in ts && t.id == id ==> t.userId == uid
    ensures UpdateById(ts, id, title, description, reminderDate) == UpdateScoped(ts, id, uid, title, description, reminderDate)
  {
    if ts != [] {
      assert ts[0] in ts;
      assert forall t :: t in ts[1..] ==> t in ts;
      UpdateByIdIsScoped(ts[1..], id, uid, title, description, reminderDate);
    }
  }

  /** Under unique ids, a row the scoped SELECT returns is the only row with that id. */
  lemma OnlyRowWithId(ts: seq<Task>, id: nat, uid: nat)
    requires IdsUnique(ts)
    requires SelectScoped(ts, id, uid).Some?
    ensures forall t :: t in ts && t.id == id ==> t.userId == uid
  {
    var found := SelectScoped(ts, id, uid).value;
    forall t | t in ts && t.id == id ensures t.userId == uid {
      var i :| 0 <= i < |ts| && ts[i] == t;
      var j :| 0 <= j < |ts| && ts[j] == found;
      assert i == j;
    }
  }

  lemma {:induction false} UpdateScopedKeepsOthers(ts: seq<Task>, id: nat, uid: nat, title: string, description: Option<string>, reminderDate: Option<string>, other: nat)
    requires other != uid
    ensures OwnedBy(UpdateScoped(ts, id, uid, title, description, reminderDate), other) == OwnedBy(ts, other)
  {
    if ts != [] {
      UpdateScopedKeepsOthers(ts[1..], id, uid, title, description, reminderDate, other);
    }
  }

  lemma {:induction false} UpdateScopedNoMatch(ts: seq<Task>, id: nat, uid: nat, title: string, description: Option<string>, reminderDate: Option<string>)
    requires SelectScoped(ts, id, uid).None?
    ensures UpdateScoped(ts, id, uid, title, description, reminderDate) == ts
  {
    if ts != [] {
      assert ts[0] in ts;
      UpdateScopedNoMatch(ts[1..], id, uid, title, description, reminderDate);
    }
  }

  lemma UpdateScopedKeepsKeys(ts: seq<Task>, id: nat, uid: nat, title: string, description: Option<string>, reminderDate: Option<string>)
    ensures SameKeys(ts, UpdateScoped(ts, id, uid, title, description, reminderDate))
  {
    if ts == [] {
    } else {
      var r := UpdateScoped(ts, id, uid, title, description, reminderDate);
      forall i | 0 <= i < |ts|
        ensures i < |r| && ts[i].id == r[i].id && ts[i].userId == r[i].userId
      {
        UpdateScopedAt(ts, id, uid, title, description, reminderDate, i);
      }
      UpdateScopedAt(ts, id, uid, title, description, reminderDate, 0);
    }
  }

  /**
   * What the ownership SELECT protects against: whenever the id belongs to
   * another user's row, the id-only UPDATE overwrites that user's row.
   */
  lemma UpdateByIdReachesForeignRow(ts: seq<Task>, id: nat, uid: nat, title: string, description: Option<string>, reminderDate: Option<string>, t: Task)
    requires t in ts && t.id == id && t.userId != uid && t.title != title
    ensures OwnedBy(UpdateById(ts, id, title, description, reminderDate), t.userId) != OwnedBy(ts, t.userId)
  {
    OwnedByMembers(ts, t.userId, t);
    assert t !in OwnedBy(UpdateById(ts, id, title, description, reminderDate), t.userId);
  }
}
