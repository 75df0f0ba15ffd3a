# A verified model of the to-do reminder app

`app.py` is a Flask and MySQL web application. Users register and log in.
A logged-in user adds, edits, completes, filters and deletes their own tasks.
Most of the file is request glue. Underneath is a small sequential state machine:

- a `users` table;
- a `tasks` table;
- the client's session, which is empty or holds `(user_id, username)`.

Each route handler moves this state by a fixed rule. This project models that
state machine in Dafny and proves what the handlers promise.

- `records.dfy` (`Records`): the rows `User` and `Task`, the `Session`, and the
  `Response` a handler sends back (`Redirect(page)`, `RenderError(page, message)`,
  the dashboard, the edit form). It also fixes the error messages of `app.py`.
  The password library is a `PasswordScheme`: an opaque `generate(password, salt)`
  and an opaque `check(hash, password)`. The ghost predicate `Sound` states what
  the library promises.
- `auth.dfy` (`Auth`): `register`'s password checks in their order, the two
  SELECTs on `users`, and the `users` table's uniqueness invariant.
- `tasktable.dfy` (`TaskTable`): the scoped SELECT, the two UPDATEs
  (`CompleteScoped`, and `UpdateById` as written), the DELETE, and
  `UpdateScoped`, the owner-scoped reference that `UpdateById` is compared
  with, each as a function on the table. The INSERT is the append
  in `Store.AddTask`, and the dashboard SELECT is `Ordering.SelectTasks`. `OwnedBy(tasks, u)` is what user `u` can see. Lemmas say which rows
  each statement touches and that every other user's rows stay the same.
  `edit_task`'s `UPDATE ... WHERE id = %s` has no owner check. It is modelled as
  written (`UpdateById`). A lemma proves that after the scoped SELECT it equals
  the ownership-scoped update.
- `forms.dfy` (`Forms`): the title guard, how an empty reminder date is stored,
  and which completion clause the `filter` parameter picks.
- `ordering.dfy` (`Ordering`): the dashboard's `WHERE` and
  `ORDER BY created_at DESC`.
- `app.dfy` (`TodoApp.Store`): one class holding both tables, the session and
  the two AUTO_INCREMENT counters. Each handler is a method. Its `modifies`
  clause names only the fields that handler writes. `Valid()` is the invariant
  every handler keeps: unique ids, emails and usernames (from the
  AUTO_INCREMENT counters and `register`'s pre-check), unique task ids, every
  task's owner exists, and the session names an existing user.
- `scenario.dfy` (`Scenario`): a client that goes through one user's whole
  session using only the handlers' contracts.

Requests are sequential. Cross-user isolation holds after every call:

- every task-changing handler leaves `OwnedBy(tasks, other)` unchanged for every
  user other than the session user;
- the dashboard and the edit form show only the session user's rows;
- a foreign task id gets the same answer as a task id that does not exist.

Three points about app.py shape the model:

- `add_task` refuses an empty title (app.py:148), but `edit_task` stores whatever
  title is sent (app.py:183-189). So `EditTask` may store an empty title.
- `edit_task`'s UPDATE names only the id (app.py:188). The model keeps it as
  written (`UpdateById`). It proves the UPDATE changes only the row the scoped
  SELECT found, because requests run one at a time and task ids are unique.
- app.py declares no UNIQUE constraint. Emails and usernames are unique only
  because of `register`'s pre-check. User and task ids are unique because the
  model draws them from the AUTO_INCREMENT counters (`nextUserId`,
  `nextTaskId`). `Store.Valid` keeps all of this.

## Model

| member | source | states |
|---|---|---|
| Auth.PasswordProblem | app.py:43-47 | rejects exactly when the password differs from its confirmation or is shorter than 6; a mismatch is reported before a short password |
| Auth.FindByEmailOrUsername | app.py:53-54 | finds a row iff some user has that email or that username; a found row is in the table and clashes |
| Auth.FindByEmail | app.py:82-83 | finds a row iff some user has that email; a found row is in the table with that email |
| Auth.FindByEmailOfMember | app.py:82-85 | with unique emails, the lookup by a user's email returns that user |
| Auth.RegisterKeepsKeysUnique | app.py:53-63 | a user appended after a failed duplicate check, with a fresh id, keeps ids, emails and usernames unique |
| Auth.RegisteredUserCanLogIn | app.py:58-88 | after such a registration, the lookup by the new email returns the new user, and the registered password verifies against the stored hash (given a sound hash library) |
| Forms.NormalizeReminder | app.py:156 | a date is stored iff it was sent and is non-empty, and then unchanged; otherwise NULL |
| Forms.TitleGiven | app.py:148 | a title passes the guard iff it was sent and is non-empty; see TodoApp.Store.AddTask |
| Forms.CompletionClause | app.py:109-112 | the SQL text of the completion clause; it is empty iff no completion filter applies; see TodoApp.Store.Dashboard |
| Forms.CompletionFilter | app.py:109-112 | "completed" selects completed rows, "pending" selects incomplete rows, every other value selects no completion clause |
| Ordering.SelectTasks | app.py:106-112 | a row is selected iff it is in the table, is owned by the user and passes the completion clause |
| Ordering.SelectTasksCounts | app.py:106-112 | each selected row appears exactly as often as in the table (so each is shown once per stored copy), and no other row appears |
| Ordering.InsertNewestFirstSorts | app.py:114 | inserting one row into a newest-first list keeps it newest first and adds exactly that row |
| Ordering.NewestFirstUnique | app.py:114 | when no two rows share `created_at`, two newest-first orderings of the same rows are equal, so the dashboard's order is then determined |
| Ordering.SortNewestFirst | app.py:114 | the result is ordered by created_at, newest first, and has the same rows (as a multiset) |
| TaskTable.OwnedBy | app.py:106 | the rows of one user, in table order: each comes from the table and has that user_id; see OwnedByMembers |
| TaskTable.CompleteScoped | app.py:207-209 | keeps the table length and never clears a completion flag; see CompleteScopedAt, CompleteScopedIdempotent, CompleteScopedNoMatch, CompleteScopedKeepsOthers |
| TaskTable.DeleteScoped | app.py:226 | never adds a row; see DeleteScopedMembers, DeleteScopedIdempotent, DeleteScopedNoMatch, DeleteScopedKeepsOthers |
| TaskTable.UpdateById | app.py:187-190 | the id-only UPDATE as written: keeps the table length, and every row with that id, whoever owns it, carries the new title, description and reminder date; see UpdateByIdIsScoped and UpdateByIdReachesForeignRow |
| TaskTable.UpdateScoped | app.py:176-190 | the ownership-scoped edit that UpdateById is compared with; keeps the table length; see UpdateScopedAt |
| TaskTable.SelectScoped | app.py:176-177 | returns a row only if it is in the table with that id and that owner; returns none iff no such row exists |
| TaskTable.OwnedByMembers | app.py:106 | a row is in a user's view iff it is in the table and owned by that user |
| TaskTable.InsertKeepsOthers | app.py:154-156 | inserting a task leaves the rows of every other user unchanged |
| TaskTable.InsertIsOwnersLast | app.py:154-156 | the inserted task is appended to its owner's rows |
| TaskTable.CompleteScopedAt | app.py:207-209 | completing keeps the table length; only a row matching both id and owner has its flag set, and every other row is unchanged |
| TaskTable.CompleteScopedIdempotent | app.py:207-209 | completing twice equals completing once |
| TaskTable.CompleteScopedNoMatch | app.py:207-209 | with no row matching both id and owner (missing or foreign id) the table is unchanged |
| TaskTable.CompleteScopedKeepsOthers | app.py:207-209 | completing leaves every other user's rows unchanged |
| TaskTable.CompleteScopedKeepsKeys | app.py:207-209 | completing keeps every row's id and owner in place |
| TaskTable.DeleteScopedMembers | app.py:226 | after a delete, a row is present iff it was present and does not match both id and owner |
| TaskTable.DeleteScopedIdempotent | app.py:226 | deleting twice equals deleting once |
| TaskTable.DeleteScopedNoMatch | app.py:226 | with no row matching both id and owner the table is unchanged |
| TaskTable.DeleteScopedKeepsOthers | app.py:226 | deleting leaves every other user's rows unchanged |
| TaskTable.DeleteScopedKeepsIdsUnique | app.py:226 | deleting keeps task ids unique |
| TaskTable.UpdateScopedAt | app.py:187-190 | the scoped edit keeps the table length; it rewrites title, description and reminder date of the matching row only, and every other row is unchanged |
| TaskTable.OnlyRowWithId | app.py:176-179 | with unique ids, once the scoped SELECT finds a row, every row with that id belongs to the session user |
| TaskTable.UpdateByIdIsScoped | app.py:176-190 | when every row with the id belongs to the user, the id-only UPDATE equals the ownership-scoped one |
| TaskTable.UpdateScopedKeepsOthers | app.py:187-190 | the scoped edit leaves every other user's rows unchanged |
| TaskTable.UpdateScopedNoMatch | app.py:179-180 | with no row matching both id and owner, the edit changes nothing |
| TaskTable.UpdateScopedKeepsKeys | app.py:187-190 | the edit keeps every row's id and owner in place |
| TaskTable.UpdateByIdReachesForeignRow | app.py:187-190 | without the prior scoped SELECT, on any table where the id belongs to another user's row with a different title, the id-only UPDATE changes that user's rows |
| TodoApp.Store.SignedIn | app.py:101 | the session gate `'user_id' in session`: true iff the session holds a user; the same test guards app.py:30, 141, 169, 201 and 220 |
| TodoApp.Store.Index | app.py:27-32 | signed-in clients are sent to the dashboard, the others to the login page |
| TodoApp.Store.Register | app.py:34-68 | checks the password, then the duplicate, then inserts, in that order; the first failing check decides the message and leaves the users table unchanged; on success exactly one user with the given username, email and generated hash is appended; tasks and the session never change |
| TodoApp.Store.Login | app.py:72-94 | succeeds iff some user has that email and the password verifies; on success the session holds that user's id and username; both failures give the same message and leave the session as it was; the tables never change |
| TodoApp.Store.Dashboard | app.py:98-127 | without a session it redirects to login; otherwise the query text is the user-scoped SELECT plus the completion clause the filter picks plus the ordering; the rows shown are exactly the session user's rows passing that clause, newest first; the raw filter value (default "all") is echoed |
| TodoApp.Store.AddTask | app.py:138-164 | without a session or with a missing or empty title the table is unchanged; otherwise one row owned by the session user is appended with the given title and description, the normalised reminder date, not completed, created now; other users' rows never change |
| TodoApp.Store.EditTaskForm | app.py:166-194 | shows the form only for a row with that id owned by the session user; a missing and a foreign id both redirect to the dashboard |
| TodoApp.Store.EditTask | app.py:166-196 | without a session nothing changes; otherwise the table becomes the ownership-scoped edit of the old one (unchanged when no row matches); other users' rows never change |
| TodoApp.Store.CompleteTask | app.py:198-215 | without a session nothing changes; otherwise the table becomes the scoped completion of the old one and the answer is always the dashboard; other users' rows never change |
| TodoApp.Store.DeleteTask | app.py:217-231 | without a session nothing changes; otherwise the table becomes the scoped delete of the old one and the answer is always the dashboard; other users' rows never change |
| TodoApp.Store.Logout | app.py:233-237 | the session is cleared whatever it held; the tables never change |
| Scenario.AliceSignsUp | app.py:34-96 | registering on an empty store and logging in with the same credentials both succeed, and the session holds the new user |
| Scenario.MilkLifecycle | app.py:98-231 | an added task is listed with its values; once completed it leaves the pending view and appears in the completed view; once deleted it is gone from the default view |

## Left out

- Flask routing, `redirect`/`url_for`, `render_template` and the templates. Each outcome is a `Response` value. The GET branches of `/register` and `/login` only render an empty form and are not modelled.
- Opening and closing the database connection (app.py:16-25 and the `finally` blocks). Storage exceptions are not modelled either: the `except` branches that render `Error: ...` (app.py:65-66, 91-92, 128-133), the printed error in `add_task` (app.py:159-160), and exceptions that escape `edit_task`, `complete_task` and `delete_task`.
- The internals of `generate_password_hash` and `check_password_hash`. They are the two opaque functions of `PasswordScheme`. The random salt is a `salt` argument of `Register`.
- `NOW()` (app.py:155). It is the `now` argument of `AddTask`.
- A new task's `is_completed` is the column default, which app.py does not show (app.py:155). It is taken as 0, so a new task is pending.
- Concurrency, including the race between `register`'s duplicate check and its INSERT. Requests run one after another.
- The configuration constants, the secret key and `app.run` (app.py:8-14, 239-240).
- Missing register and login form fields (`None`): username, email and password are taken as sent. In particular, `len(None)` raising when both password fields are missing is not modelled. `edit_task`'s title is also taken as sent, so storing a NULL title is not modelled. Task descriptions and reminder dates, the add-task title and the filter parameter are modelled as possibly missing.
- MySQL's collation: the model compares emails and usernames exactly, while MySQL's default collation ignores case. MySQL's parsing of `reminder_date` into a DATE is not modelled either; the date is kept as the submitted string.
- The order of rows with equal `created_at`: SQL leaves it open. `Dashboard` promises only newest-first order and the same rows, so its contract does not fix the order among ties.
- `fetchone` after a SELECT without ORDER BY returns some matching row. The model returns the first matching row in table order.
- The session is one client's. Flask signs it into a cookie, and several clients, cookie tampering and session expiry are not modelled.
- Ids are unbounded naturals. AUTO_INCREMENT counters start at 1 and never reuse a value; their overflow is not modelled.
