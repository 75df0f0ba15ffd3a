/**
 * The account side of the application: the password checks `register`
 * makes before touching the database, and the two SELECTs on `users`
 * (`register`'s duplicate pre-check and `login`'s lookup by email).
 * `fetchone` without an ORDER BY is modelled as the first matching row in
 * insertion order.
 */
module Auth {
  import opened Records

  /**
   * The password checks of `register`, in the order the handler makes them:
   * a mismatch with the confirmation wins over a short password.
   */
  function PasswordProblem(password: string, confirmPassword: string): (r: Option<string>)
    ensures r == None <==> password == confirmPassword && |password| >= MIN_PASSWORD_LENGTH
    ensures password != confirmPassword ==> r == Some(PASSWORDS_DO_NOT_MATCH)
    ensures password == confirmPassword && |password| < MIN_PASSWORD_LENGTH ==> r == Some(PASSWORD_TOO_SHORT)
  {
    if password != confirmPassword then Some(PASSWORDS_DO_NOT_MATCH)
    else if |password| < MIN_PASSWORD_LENGTH then Some(PASSWORD_TOO_SHORT)
    else None
  }

  predicate Clashes(u: User, email: string, username: string) {
    u.email == email || u.username == username
  }

  /** `SELECT * FROM users WHERE email = %s OR username = %s`, then `fetchone`. */
  function FindByEmailOrUsername(users: seq<User>, email: string, username: string): (r: Option<User>)
    ensures r.Some? ==> r.value in users && Clashes(r.value, email, username)
    ensures r.None? <==> forall u :: u in users ==> !Clashes(u, email, username)
  {
    if users == [] then None
    else if Clashes(users[0], email, username) then Some(users[0])
    else FindByEmailOrUsername(users[1..], email, username)
  }

  /** `SELECT * FROM users WHERE email = %s`, then `fetchone`. */
  function FindByEmail(users: seq<User>, email: string): (r: Option<User>)
    ensures r.Some? ==> r.value in users && r.value.email == email
    ensures r.None? <==> forall u :: u in users ==> u.email != email
  {
    if users == [] then None
    else if users[0].email == email then Some(users[0])
    else FindByEmail(users[1..], email)
  }

  /** Unique ids (from the AUTO_INCREMENT counter), and unique emails and usernames (from `register`'s pre-check). */
  ghost predicate KeysUnique(users: seq<User>) {
    forall i, j | 0 <= i < j < |users| ::
      users[i].id != users[j].id && users[i].email != users[j].email && users[i].username != users[j].username
  }

  predicate HasUser(users: seq<User>, id: nat) {
    exists u :: u in users && u.id == id
  }

  /** With unique emails the lookup by email finds exactly the user who has it. */
  lemma {:induction false} FindByEmailOfMember(users: seq<User>, u: User)
    requires KeysUnique(users)
    requires u in users
    ensures FindByEmail(users, u.email) == Some(u)
  {
    if users[0] != u {
      assert u in users[1..];
      var k :| 0 < k < |users| && users[k] == u;
      assert users[0].email != users[k].email;
      assert KeysUnique(users[1..]) by {
        forall i, j | 0 <= i < j < |users[1..]|
          ensures users[1..][i].id != users[1..][j].id
          ensures users[1..][i].email != users[1..][j].email
          ensures users[1..][i].username != users[1..][j].username
        {
          assert users[1..][i] == users[i + 1] && users[1..][j] == users[j + 1];
        }
      }
      FindByEmailOfMember(users[1..], u);
    }
  }

  /** A registration that passes the duplicate pre-check keeps the keys unique. */
  lemma RegisterKeepsKeysUnique(users: seq<User>, u: User)
    requires KeysUnique(users)
    requires forall v :: v in users ==> v.id < u.id
    requires FindByEmailOrUsername(users, u.email, u.username).None?
    ensures KeysUnique(users + [u])
  {
    var all := users + [u];
    forall i, j | 0 <= i < j < |all|
      ensures all[i].id != all[j].id && all[i].email != all[j].email && all[i].username != all[j].username
    {
      if j == |users| {
        assert all[i] in users;
      }
    }
  }

  /**
   * After such a registration the new user is the one `login` finds by that
   * email, and the password it registered with verifies against the stored hash.
   */
  lemma RegisteredUserCanLogIn(users: seq<User>, u: User, scheme: PasswordScheme, password: string, salt: Salt)
    requires Sound(scheme)
    requires KeysUnique(users)
    requires forall v :: v in users ==> v.id < u.id
    requires FindByEmailOrUsername(users, u.email, u.username).None?
    requires u.passwordHash == scheme.generate(password, salt)
    ensures FindByEmail(users + [u], u.email) == Some(u)
    ensures scheme.check(FindByEmail(users + [u], u.email).value.passwordHash, password)
  {
    RegisterKeepsKeysUnique(users, u);
    FindByEmailOfMember(users + [u], u);
  }
}
