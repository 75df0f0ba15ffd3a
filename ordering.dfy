/**
 * The database side of the dashboard query: the rows `WHERE user_id = %s
 * [AND is_completed = b]` selects, and `ORDER BY created_at DESC`.
 * SQL fixes no order among rows with equal `created_at`; the model breaks
 * ties one way, and its contract promises only what SQL promises: newest
 * first, and the same rows.
 */
module Ordering {
  import opened Records
  import opened Forms

  /** `SELECT * FROM tasks WHERE user_id = %s [AND is_completed = b]`, unordered. */
  function SelectTasks(ts: seq<Task>, uid: nat, completed: Option<bool>): (r: seq<Task>)
    ensures forall t :: t in r <==> t in ts && t.userId == uid && PassesFilter(t, completed)
    ensures |r| <= |ts|
  {
    if ts == [] then []
    else
      var rest := SelectTasks(ts[1..], uid, completed);
      if ts[0].userId == uid && PassesFilter(ts[0], completed) then [ts[0]] + rest else rest
  }

  /** Each selected row appears as often as in the table, and no other row appears. */
  lemma {:induction false} SelectTasksCounts(ts: seq<Task>, uid: nat, completed: Option<bool>, t: Task)
    ensures multiset(SelectTasks(ts, uid, completed))[t]
            == if t.userId == uid && PassesFilter(t, completed) then multiset(ts)[t] else 0
  {
    if ts != [] {
      SelectTasksCounts(ts[1..], uid, completed, t);
      assert ts == [ts[0]] + ts[1..];
    }
  }

  ghost predicate NewestFirst(s: seq<Task>) {
    forall i, j | 0 <= i < j < |s| :: s[i].createdAt >= s[j].createdAt
  }

  lemma NewestFirstHead(s: seq<Task>)
    requires s != [] && NewestFirst(s)
    ensures NewestFirst(s[1..])
    ensures forall x :: x in s ==> x.createdAt <= s[0].createdAt
  {
    forall i, j | 0 <= i < j < |s[1..]| ensures s[1..][i].createdAt >= s[1..][j].createdAt {
      assert s[1..][i] == s[i + 1] && s[1..][j] == s[j + 1];
    }
    forall x | x in s ensures x.createdAt <= s[0].createdAt {
      var k :| 0 <= k < |s| && s[k] == x;
    }
  }

  lemma NewestFirstCons(t: Task, s: seq<Task>)
    requires NewestFirst(s)
    requires forall x :: x in s ==> x.createdAt <= t.createdAt
    ensures NewestFirst([t] + s)
  {
    var r := [t] + s;
    forall i, j | 0 <= i < j < |r| ensures r[i].createdAt >= r[j].createdAt {
      assert r[j] == s[j - 1] && r[j] in s;
      if i > 0 {
        assert r[i] == s[i - 1];
      }
    }
  }

  /** One step of the ordering: put `t` in front of the first row that is not newer. */
  function InsertNewestFirst(t: Task, s: seq<Task>): seq<Task> {
    if s == [] || t.createdAt >= s[0].createdAt then [t] + s
    else [s[0]] + InsertNewestFirst(t, s[1..])
  }

  lemma {:induction false} InsertNewestFirstSorts(t: Task, s: seq<Task>)
    requires NewestFirst(s)
    ensures NewestFirst(InsertNewestFirst(t, s))
    ensures multiset(InsertNewestFirst(t, s)) == multiset(s) + multiset{t}
  {
    if s == [] {
    } else if t.createdAt >= s[0].createdAt {
      NewestFirstHead(s);
      NewestFirstCons(t, s);
    } else {
      NewestFirstHead(s);
      var rest := InsertNewestFirst(t, s[1..]);
      InsertNewestFirstSorts(t, s[1..]);
      assert s == [s[0]] + s[1..];
      assert multiset(s) == multiset{s[0]} + multiset(s[1..]);
      forall x | x in rest ensures x.createdAt <= s[0].createdAt {
        assert x in multiset(rest);
        assert x == t || x in multiset(s[1..]);
        if x != t {
          assert x in s[1..];
          assert x in s;
        }
      }
      NewestFirstCons(s[0], rest);
      assert InsertNewestFirst(t, s) == [s[0]] + rest;
    }
  }

  /** `ORDER BY created_at DESC`: the same rows, newest first. */
  function SortNewestFirst(s: seq<Task>): (r: seq<Task>)
    ensures NewestFirst(r)
    ensures multiset(r) == multiset(s)
  {
    if s == [] then []
    else
      assert s == [s[0]] + s[1..];
      InsertNewestFirstSorts(s[0], SortNewestFirst(s[1..]));
      InsertNewestFirst(s[0], SortNewestFirst(s[1..]))
  }

  lemma SameHeadSameTail(a: seq<Task>, b: seq<Task>)
    requires a != [] && b != [] && a[0] == b[0]
    requires multiset(a) == multiset(b)
    ensures multiset(a[1..]) == multiset(b[1..])
  {
    assert a == [a[0]] + a[1..] && b == [b[0]] + b[1..];
    assert multiset(a[1..]) == multiset(a) - multiset{a[0]};
    assert multiset(b[1..]) == multiset(b) - multiset{a[0]};
  }

  /**
   * Without ties on `created_at` there is only one newest-first order of a
   * set of rows, so the dashboard then shows the same list on every request
   * that finds the same rows.
   */
  lemma {:induction false} NewestFirstUnique(a: seq<Task>, b: seq<Task>)
    requires NewestFirst(a) && NewestFirst(b)
    requires multiset(a) == multiset(b)
    requires forall i, j | 0 <= i < j < |a| :: a[i].createdAt != a[j].createdAt
    ensures a == b
  {
    if a == [] {
      assert |b| == |multiset(b)| == 0;
    } else {
      assert |b| == |multiset(b)| == |a| > 0;
      assert a[0] in multiset(b) && b[0] in multiset(a);
      NewestFirstHead(a);
      NewestFirstHead(b);
      var k :| 0 <= k < |a| && a[k] == b[0];
      assert b[0].createdAt == a[0].createdAt;
      assert k == 0;
      SameHeadSameTail(a, b);
      forall i, j | 0 <= i < j < |a[1..]|
        ensures a[1..][i].createdAt != a[1..][j].createdAt
      {
        assert a[1..][i] == a[i + 1] && a[1..][j] == a[j + 1];
      }
      NewestFirstUnique(a[1..], b[1..]);
    }
  }
}
