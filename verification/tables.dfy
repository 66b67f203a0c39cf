/** The three tables the handlers touch, as immutable maps from primary key
    to row, together with the integrity facts the database keeps about them. */
module Tables {
  import opened Basics

  /** A row of `users`; the primary key `id` is the map key. Boolean columns
      hold the 0/1 integers MySQL returns for BOOLEAN. `gpa` is the text of
      a DECIMAL(3,2) value. */
  datatype UserRow = UserRow(
    name: string,
    email: string,
    password: string,
    avatar: Option<string>,
    studentId: Option<string>,
    major: Option<string>,
    department: Option<string>,
    program: Option<string>,
    gpa: Option<string>,
    level: Option<int>,
    mode: Option<string>,
    isVerified: int,
    isOnboardingComplete: int,
    enrolledCourses: Option<string>)

  /** A row of `tasks`; the primary key `id` is the map key. */
  datatype TaskRow = TaskRow(
    title: string,
    course: Option<string>,
    priority: Option<string>,
    completed: int,
    description: Option<string>,
    userId: Option<string>,
    dueDate: Option<string>,
    notificationId: Option<int>)

  /** A row of `verification_codes`; the AUTO_INCREMENT `id` is the map key.
      `kind` is the `type` column; `expiresAt` is in milliseconds. */
  datatype CodeRow = CodeRow(email: string, code: string, kind: string, expiresAt: int, used: int)

  /** The database as the handlers see it. `nextCodeId` is the AUTO_INCREMENT
      counter of `verification_codes`. */
  datatype State = State(
    users: map<string, UserRow>,
    tasks: map<string, TaskRow>,
    codes: map<nat, CodeRow>,
    nextCodeId: nat)

  /** What one request does: the database after it, and the reply it sends. */
  datatype Outcome<+T> = Outcome(state: State, reply: Reply<T>)

  /** Lifetime of a stored verification code: ten minutes, in milliseconds. */
  const CodeLifetime: int := 10 * 60 * 1000

  /** The UNIQUE constraint on `users.email`. */
  ghost predicate EmailsUnique(users: map<string, UserRow>) {
    forall i, j :: i in users && j in users && users[i].email == users[j].email ==> i == j
  }

  /** At most one code row per (email, type), which store-code maintains by
      deleting before inserting. */
  ghost predicate OneCodePerPair(codes: map<nat, CodeRow>) {
    forall i, j ::
      i in codes && j in codes && codes[i].email == codes[j].email && codes[i].kind == codes[j].kind
      ==> i == j
  }

  /** The code table keeps one row per (email, type) and every row id is
      below the AUTO_INCREMENT counter. */
  ghost predicate CodesWellFormed(s: State) {
    && OneCodePerPair(s.codes)
    && (forall k :: k in s.codes ==> k < s.nextCodeId)
  }

  /** Every task's `completed` column is 0 or 1. */
  ghost predicate CompletedIsBoolean(tasks: map<string, TaskRow>) {
    forall id :: id in tasks ==> tasks[id].completed == 0 || tasks[id].completed == 1
  }

  /** The invariant of every reachable database state. */
  ghost predicate Valid(s: State) {
    && EmailsUnique(s.users)
    && CodesWellFormed(s)
    && CompletedIsBoolean(s.tasks)
  }

  /** The database right after the tables are created: every table empty. */
  function Empty(): (s: State)
    ensures Valid(s)
  {
    State(map[], map[], map[], 1)
  }

  /** How a JavaScript boolean is bound to a BOOLEAN column. */
  function Flag(b: bool): (v: int)
    ensures v == 1 <==> b
    ensures v == 0 <==> !b
  {
    if b then 1 else 0
  }

  /** SQL `col = ?` with a possibly-NULL parameter: NULL equals nothing. */
  predicate SqlEq(column: string, param: Option<string>) {
    param == Some(column)
  }

  /** The digit character for `d`. */
  function Digit(d: nat): (c: char)
    requires d < 10
    ensures '0' <= c <= '9'
  {
    "0123456789"[d]
  }

  /** `n.toString()` for a non-negative integer: the way `Date.now()` becomes
      a primary key. */
  function Decimal(n: nat): (r: string)
    ensures |r| >= 1
    ensures forall i :: 0 <= i < |r| ==> '0' <= r[i] <= '9'
    ensures n < 10 <==> |r| == 1
    decreases n
  {
    if n < 10 then [Digit(n)] else Decimal(n / 10) + [Digit(n % 10)]
  }

  /** The number a string of decimal digits denotes (`parseInt` on it). */
  function Value(s: string): nat
    requires forall i :: 0 <= i < |s| ==> '0' <= s[i] <= '9'
    decreases |s|
  {
    if |s| == 0 then 0
    else 10 * Value(s[..|s| - 1]) + (s[|s| - 1] as int - '0' as int)
  }

  /** The id is the decimal text of the clock reading: it denotes that
      number and has no leading zero. */
  lemma {:induction false} DecimalValue(n: nat)
    ensures Value(Decimal(n)) == n
    ensures |Decimal(n)| > 1 ==> Decimal(n)[0] != '0'
    decreases n
  {
    var r := Decimal(n);
    if n >= 10 {
      DecimalValue(n / 10);
      assert r[..|r| - 1] == Decimal(n / 10);
      assert r[0] == Decimal(n / 10)[0];
    }
  }

  /** Distinct digits are distinct characters. */
  lemma DigitInjective(a: nat, b: nat)
    requires a < 10 && b < 10
    requires Digit(a) == Digit(b)
    ensures a == b
  {
  }

  /** Distinct clock readings give distinct ids: `toString` on naturals is
      injective. */
  lemma {:induction false} DecimalInjective(a: nat, b: nat)
    requires Decimal(a) == Decimal(b)
    ensures a == b
    decreases a
  {
    var r := Decimal(a);
    if a < 10 {
      assert b < 10;
      DigitInjective(a, b);
    } else {
      assert b >= 10;
      var pa := Decimal(a / 10);
      var pb := Decimal(b / 10);
      assert r == pa + [Digit(a % 10)] == pb + [Digit(b % 10)];
      assert pa == r[..|r| - 1] == pb;
      assert Digit(a % 10) == r[|r| - 1] == Digit(b % 10);
      DecimalInjective(a / 10, b / 10);
      DigitInjective(a % 10, b % 10);
    }
  }

  /** The id of the user whose email is `email`, if any (`SELECT ... WHERE email = ?`). */
  function UserWithEmail(users: map<string, UserRow>, email: Option<string>): (r: Option<string>)
    requires EmailsUnique(users)
    ensures r.None? <==> forall id :: id in users ==> !SqlEq(users[id].email, email)
    ensures r.Some? ==> r.value in users && SqlEq(users[r.value].email, email)
  {
    if exists id :: id in users && SqlEq(users[id].email, email) then
      var id :| id in users && SqlEq(users[id].email, email);
      Some(id)
    else
      None
  }
}
