/**
 * The rows, the session and the responses of the to-do application.
 * A row of the `users` table is a `User`, a row of the `tasks` table a `Task`;
 * the Flask session is an optional `Session`; what a handler sends back
 * (a redirect or a rendered template) is a `Response`.
 */
module Records {

  datatype Option<+T> = None | Some(value: T) {
    function GetOr(default: T): T {
      match this
      case Some(v) => v
      case None => default
    }
  }

  /** A stored password hash, as the hashing library writes it. */
  type Digest = string

  /** The random salt the hashing library draws for each new hash. */
  type Salt = nat

  /**
   * The password hashing library, seen from outside: `generate` plays
   * generate_password_hash (its random salt made an argument) and `check`
   * plays check_password_hash.
   */
  datatype PasswordScheme = PasswordScheme(
    generate: (string, Salt) -> Digest,
    check: (Digest, string) -> bool)

  /** What the library promises: a hash made from a password verifies against it. */
  ghost predicate Sound(scheme: PasswordScheme) {
    forall password, salt :: scheme.check(scheme.generate(password, salt), password)
  }

  /** A row of `users(id, username, email, password)`. */
  datatype User = User(id: nat, username: string, email: string, passwordHash: Digest)

  /**
   * A row of `tasks(id, user_id, title, description, reminder_date,
   * is_completed, created_at)`; `None` is SQL NULL.
   */
  datatype Task = Task(
    id: nat,
    userId: nat,
    title: string,
    description: Option<string>,
    reminderDate: Option<string>,
    isCompleted: bool,
    createdAt: int)

  /** The two session keys the application writes: `user_id` and `username`. */
  datatype Session = Session(userId: nat, username: string)

  function SessionOf(u: User): Session {
    Session(u.id, u.username)
  }

  /** The templates and routes a response can name. */
  datatype Page = LoginPage | RegisterPage | DashboardPage

  datatype Response =
    | Redirect(target: Page)
    | RenderError(page: Page, error: string)
    | ShowDashboard(tasks: seq<Task>, username: string, filterOption: string)
    | ShowEditForm(task: Task)

  const PASSWORDS_DO_NOT_MATCH := "Passwords do not match"
  const PASSWORD_TOO_SHORT := "Password must be at least 6 characters"
  const USER_EXISTS := "Email or username already exists"
  const INVALID_LOGIN := "Invalid email or password"

  /** The shortest password `register` accepts. */
  const MIN_PASSWORD_LENGTH := 6
}
