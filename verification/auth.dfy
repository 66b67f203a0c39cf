/** The user handlers: login, register, get, update, change-password,
    delete-all and reset-password. Each request is one atomic transition of
    the database; an absent body field is SQL NULL, and binding NULL to a
    NOT NULL column is the storage error that the handler reports as 500. */
module Auth {
  import opened Basics
  import opened Tables
  import opened Codecs
  import opened CourseList

  /** The user object register sends back: no password, and none of the
      profile fields the new row leaves NULL. */
  datatype NewUser = NewUser(
    id: string,
    name: string,
    email: string,
    avatar: string,
    studentId: string,
    mode: string,
    isOnboardingComplete: bool,
    enrolledCourses: seq<string>)

  /** The body of an update-user request. */
  datatype UserUpdate = UserUpdate(
    name: Option<string>,
    avatar: Option<string>,
    major: Option<string>,
    department: Option<string>,
    gpa: Option<string>,
    level: Option<int>,
    mode: Option<string>,
    isOnboardingComplete: Option<bool>,
    enrolledCourses: Option<seq<string>>)

  /** The placeholder-avatar service; the URL-encoded name is appended. */
  const AvatarBase: string := "https://ui-avatars.com/api/?name="

  /** Prefix of the student id derived from the user id. */
  const StudentIdPrefix: string := "STU"

  /** Some user has this email. */
  ghost predicate HasEmail(users: map<string, UserRow>, email: Option<string>) {
    exists id :: id in users && SqlEq(users[id].email, email)
  }

  /** Some user has this email and this password. */
  ghost predicate HasCredentials(users: map<string, UserRow>, email: Option<string>, password: Option<string>) {
    exists id :: id in users && SqlEq(users[id].email, email) && SqlEq(users[id].password, password)
  }

  /** POST /api/auth/login: an exact (email, password) match, else 401. */
  function Login(s: State, email: Option<string>, password: Option<string>): (r: Reply<User>)
    requires EmailsUnique(s.users)
    ensures r.Ok? <==> HasCredentials(s.users, email, password)
    ensures r.Ok? ==> r.value.id in s.users && r.value == FormatUser(r.value.id, s.users[r.value.id])
                      && SqlEq(r.value.email, email)
    ensures r.Err? ==> r.status == 401
  {
    match UserWithEmail(s.users, email)
    case None => Err(401, "Invalid credentials")
    case Some(id) =>
      if SqlEq(s.users[id].password, password) then Ok(FormatUser(id, s.users[id]))
      else Err(401, "Invalid credentials")
  }

  /** POST /api/auth/register. A taken email is 409. Otherwise the row gets
      id `now` in decimal, student id "STU" + id, mode 'student' and
      onboarding incomplete; a NULL name, email or password, or an id that
      is already taken, makes the INSERT fail with 500. */
  function Register(s: State, now: nat, encode: string -> string,
                    name: Option<string>, email: Option<string>, password: Option<string>)
    : (r: Outcome<NewUser>)
    requires EmailsUnique(s.users)
    ensures EmailsUnique(r.state.users)
    ensures HasEmail(s.users, email) ==> r == Outcome(s, Err(409, "User already exists"))
    ensures r.reply.Err? ==> r.state == s && (r.reply.status == 409 || r.reply.status == 500)
    ensures r.reply.Err? ==> (r.reply.status == 409 <==> HasEmail(s.users, email))
    ensures r.reply.Ok? <==> && !HasEmail(s.users, email)
                             && name.Some? && email.Some? && password.Some?
                             && Decimal(now) !in s.users
    ensures r.reply.Ok? ==>
              var u := r.reply.value;
              && u.id == Decimal(now) && u.studentId == StudentIdPrefix + u.id
              && u.name == name.value && u.email == email.value
              && u.avatar == AvatarBase + encode(name.value)
              && u.mode == DefaultMode && !u.isOnboardingComplete && u.enrolledCourses == []
              && r.state.users.Keys == s.users.Keys + {u.id}
              && (forall id :: id in s.users ==> r.state.users[id] == s.users[id])
              && var row := r.state.users[u.id];
              && row.name == u.name && row.email == u.email && row.password == password.value
              && row.studentId == Some(u.studentId) && row.avatar == Some(u.avatar)
              && row.mode == Some(DefaultMode) && row.isOnboardingComplete == 0
              && row.isVerified == 0 && row.enrolledCourses == None
              && row.major.None? && row.department.None? && row.program.None?
              && row.gpa.None? && row.level.None?
    ensures r.state.tasks == s.tasks && r.state.codes == s.codes && r.state.nextCodeId == s.nextCodeId
  {
    if UserWithEmail(s.users, email).Some? then
      Outcome(s, Err(409, "User already exists"))
    else
      var id := Decimal(now);
      if name.None? || email.None? || password.None? || id in s.users then
        Outcome(s, Err(500, "Registration failed"))
      else
        var studentId := StudentIdPrefix + id;
        var avatar := AvatarBase + encode(name.value);
        var row := UserRow(name.value, email.value, password.value, Some(avatar), Some(studentId),
                           None, None, None, None, None, Some(DefaultMode), 0, 0, None);
        var users' := s.users[id := row];
        assert EmailsUnique(users') by {
          forall i, j | i in users' && j in users' && users'[i].email == users'[j].email
            ensures i == j
          {
            if i != id && j != id {
              assert users'[i] == s.users[i] && users'[j] == s.users[j];
            }
          }
        }
        Outcome(s.(users := users'),
                Ok(NewUser(id, name.value, email.value, avatar, studentId, DefaultMode, false, [])))
  }

  /** GET /api/users/:email: the formatted user, or 404. */
  function GetUser(s: State, email: string): (r: Reply<User>)
    requires EmailsUnique(s.users)
    ensures r.Ok? <==> HasEmail(s.users, Some(email))
    ensures r.Ok? ==> r.value.id in s.users && r.value == FormatUser(r.value.id, s.users[r.value.id])
                      && r.value.email == email
    ensures r.Err? ==> r.status == 404
  {
    match UserWithEmail(s.users, Some(email))
    case None => Err(404, "User not found")
    case Some(id) => Ok(FormatUser(id, s.users[id]))
  }

  /** The row written by update-user: every listed column replaced, absent
      values included; courses flattened with commas. */
  function Updated(row: UserRow, name: string, req: UserUpdate): UserRow {
    row.(name := name, avatar := req.avatar, major := req.major,
         department := req.department, gpa := req.gpa, level := req.level,
         mode := req.mode,
         isOnboardingComplete := Flag(req.isOnboardingComplete == Some(true)),
         enrolledCourses := Some(EncodeCourses(req.enrolledCourses)))
  }

  /** PUT /api/users/:email. An unknown email changes nothing and answers
      success with a null user. For a known email every listed column is
      overwritten (a NULL name fails the NOT NULL column with 500), and the
      read-back row is returned. */
  function UpdateUser(s: State, email: string, req: UserUpdate): (r: Outcome<Option<User>>)
    requires EmailsUnique(s.users)
    ensures EmailsUnique(r.state.users)
    ensures r.state.tasks == s.tasks && r.state.codes == s.codes && r.state.nextCodeId == s.nextCodeId
    ensures r.state.users.Keys == s.users.Keys
    ensures !HasEmail(s.users, Some(email)) ==> r == Outcome(s, Ok(None))
    ensures r.reply.Err? <==> HasEmail(s.users, Some(email)) && req.name.None?
    ensures r.reply.Err? ==> r.state == s && r.reply.status == 500
    ensures forall id :: id in s.users && s.users[id].email != email ==> r.state.users[id] == s.users[id]
    ensures r.reply.Ok? && HasEmail(s.users, Some(email)) ==>
              forall id :: id in s.users && s.users[id].email == email ==>
                var before := s.users[id];
                var after := r.state.users[id];
                && r.reply.value == Some(FormatUser(id, after))
                && after.name == req.name.value && after.avatar == req.avatar
                && after.major == req.major && after.department == req.department
                && after.gpa == req.gpa && after.level == req.level && after.mode == req.mode
                && (after.isOnboardingComplete == 1 <==> req.isOnboardingComplete == Some(true))
                && after.enrolledCourses == Some(EncodeCourses(req.enrolledCourses))
                && (req.enrolledCourses.None? ==> after.enrolledCourses == Some(""))
                && after.email == before.email && after.password == before.password
                && after.studentId == before.studentId && after.program == before.program
                && after.isVerified == before.isVerified
  {
    match UserWithEmail(s.users, Some(email))
    case None => Outcome(s, Ok(None))
    case Some(id) =>
      if req.name.None? then
        Outcome(s, Err(500, "Failed to update user"))
      else
        var row := Updated(s.users[id], req.name.value, req);
        var users' := s.users[id := row];
        assert EmailsUnique(users') by {
          forall i, j | i in users' && j in users' && users'[i].email == users'[j].email
            ensures i == j
          {
            assert users'[i].email == s.users[i].email && users'[j].email == s.users[j].email;
          }
        }
        Outcome(s.(users := users'), Ok(Some(FormatUser(id, row))))
  }

  /** POST /api/auth/change-password: the new password is written only when
      (email, currentPassword) matches a row; otherwise 401. */
  function ChangePassword(s: State, email: Option<string>, current: Option<string>, newPassword: Option<string>)
    : (r: Outcome<()>)
    requires EmailsUnique(s.users)
    ensures EmailsUnique(r.state.users)
    ensures r.state.tasks == s.tasks && r.state.codes == s.codes && r.state.nextCodeId == s.nextCodeId
    ensures !HasCredentials(s.users, email, current) ==>
              r == Outcome(s, Err(401, "Current password is incorrect"))
    ensures r.reply.Ok? <==> HasCredentials(s.users, email, current) && newPassword.Some?
    ensures r.reply.Err? ==> r.state == s
    ensures r.reply.Err? ==> (r.reply.status == 401 <==> !HasCredentials(s.users, email, current))
    ensures r.reply.Ok? ==>
              && r.state.users.Keys == s.users.Keys
              && forall id :: id in s.users ==>
                   if SqlEq(s.users[id].email, email)
                   then r.state.users[id] == s.users[id].(password := newPassword.value)
                   else r.state.users[id] == s.users[id]
  {
    match UserWithEmail(s.users, email)
    case None => Outcome(s, Err(401, "Current password is incorrect"))
    case Some(id) =>
      if !SqlEq(s.users[id].password, current) then
        Outcome(s, Err(401, "Current password is incorrect"))
      else if newPassword.None? then
        Outcome(s, Err(500, "Failed to change password"))
      else
        var users' := s.users[id := s.users[id].(password := newPassword.value)];
        assert EmailsUnique(users') by {
          forall i, j | i in users' && j in users' && users'[i].email == users'[j].email
            ensures i == j
          {
            assert users'[i].email == s.users[i].email && users'[j].email == s.users[j].email;
          }
        }
        Outcome(s.(users := users'), Ok(()))
  }

  /** DELETE /api/users: empties the users table and nothing else. */
  function DeleteAllUsers(s: State): (r: Outcome<()>)
    ensures r.reply.Ok?
    ensures r.state.users == map[]
    ensures r.state.tasks == s.tasks && r.state.codes == s.codes && r.state.nextCodeId == s.nextCodeId
  {
    Outcome(s.(users := map[]), Ok(()))
  }

  /** POST /api/auth/reset-password: guarded only by the user existing (404
      otherwise); writes the new password and deletes every verification
      code of that email, of every type. */
  function ResetPassword(s: State, email: Option<string>, newPassword: Option<string>): (r: Outcome<()>)
    requires EmailsUnique(s.users)
    ensures EmailsUnique(r.state.users)
    ensures r.state.tasks == s.tasks && r.state.nextCodeId == s.nextCodeId
    ensures !HasEmail(s.users, email) ==> r == Outcome(s, Err(404, "User not found"))
    ensures r.reply.Ok? <==> HasEmail(s.users, email) && newPassword.Some?
    ensures r.reply.Err? ==> r.state == s
    ensures r.reply.Err? ==> (r.reply.status == 404 <==> !HasEmail(s.users, email))
    ensures r.reply.Err? && HasEmail(s.users, email) ==> r.reply.status == 500
    ensures r.reply.Ok? ==>
              && r.state.users.Keys == s.users.Keys
              && (forall id :: id in s.users ==>
                    if SqlEq(s.users[id].email, email)
                    then r.state.users[id] == s.users[id].(password := newPassword.value)
                    else r.state.users[id] == s.users[id])
              && (forall k :: k in r.state.codes ==> !SqlEq(r.state.codes[k].email, email))
              && (forall k :: k in s.codes && !SqlEq(s.codes[k].email, email) ==>
                    k in r.state.codes && r.state.codes[k] == s.codes[k])
              && (forall k :: k in r.state.codes ==> k in s.codes && r.state.codes[k] == s.codes[k])
  {
    match UserWithEmail(s.users, email)
    case None => Outcome(s, Err(404, "User not found"))
    case Some(id) =>
      if newPassword.None? then
        Outcome(s, Err(500, "Failed to reset password"))
      else
        var users' := s.users[id := s.users[id].(password := newPassword.value)];
        assert EmailsUnique(users') by {
          forall i, j | i in users' && j in users' && users'[i].email == users'[j].email
            ensures i == j
          {
            assert users'[i].email == s.users[i].email && users'[j].email == s.users[j].email;
          }
        }
        var codes' := map k | k in s.codes && !SqlEq(s.codes[k].email, email) :: s.codes[k];
        Outcome(s.(users := users', codes := codes'), Ok(()))
  }

  /** After a successful registration the new user logs in with the
      registered password, and GET returns a user that agrees with the
      registration reply on every field the reply has. */
  lemma RegisterThenGet(s: State, now: nat, encode: string -> string,
                        name: Option<string>, email: Option<string>, password: Option<string>)
    requires EmailsUnique(s.users)
    requires Register(s, now, encode, name, email, password).reply.Ok?
    ensures var r := Register(s, now, encode, name, email, password);
            var u := r.reply.value;
            && u.id in r.state.users
            && Login(r.state, email, password) == Ok(FormatUser(u.id, r.state.users[u.id]))
            && GetUser(r.state, email.value).Ok?
            && var g := GetUser(r.state, email.value).value;
            && g.id == u.id && g.name == u.name && g.email == u.email
            && g.avatar == Some(u.avatar) && g.studentId == Some(u.studentId) && g.mode == u.mode
            && g.isOnboardingComplete == u.isOnboardingComplete && g.enrolledCourses == u.enrolledCourses
  {
    var r := Register(s, now, encode, name, email, password);
    var u := r.reply.value;
    assert SqlEq(r.state.users[u.id].email, email);
    assert SqlEq(r.state.users[u.id].password, password);
  }

  /** A second registration with the same email is refused and changes nothing,
      whatever the other fields and the clock. */
  lemma RegisterTwiceConflicts(s: State, now: nat, later: nat, encode: string -> string,
                               name: Option<string>, email: Option<string>, password: Option<string>,
                               name2: Option<string>, password2: Option<string>)
    requires EmailsUnique(s.users)
    requires Register(s, now, encode, name, email, password).reply.Ok?
    ensures var s' := Register(s, now, encode, name, email, password).state;
            Register(s', later, encode, name2, email, password2) == Outcome(s', Err(409, "User already exists"))
  {
    var r := Register(s, now, encode, name, email, password);
    assert SqlEq(r.state.users[r.reply.value.id].email, email);
  }

  /** After a successful change the new password logs in, and the old one
      no longer does unless the two are equal. */
  lemma ChangePasswordThenLogin(s: State, email: Option<string>,
                                current: Option<string>, newPassword: Option<string>)
    requires EmailsUnique(s.users)
    requires ChangePassword(s, email, current, newPassword).reply.Ok?
    ensures var s' := ChangePassword(s, email, current, newPassword).state;
            && Login(s', email, newPassword).Ok?
            && (current != newPassword ==> Login(s', email, current).Err?)
  {
    var s' := ChangePassword(s, email, current, newPassword).state;
    var id :| id in s.users && SqlEq(s.users[id].email, email) && SqlEq(s.users[id].password, current);
    assert SqlEq(s'.users[id].email, email) && SqlEq(s'.users[id].password, newPassword);
  }

  /** The user update-user returns is what a later GET returns; its course
      list is the one sent exactly when that list is encodable, and the
      empty list when the body's list was not an array. */
  lemma UpdateUserReadBack(s: State, email: string, req: UserUpdate)
    requires EmailsUnique(s.users)
    requires UpdateUser(s, email, req).reply.Ok?
    requires UpdateUser(s, email, req).reply.value.Some?
    ensures var r := UpdateUser(s, email, req);
            var u := r.reply.value.value;
            && GetUser(r.state, email) == Ok(u)
            && (req.enrolledCourses.None? ==> u.enrolledCourses == [])
            && (req.enrolledCourses.Some? ==>
                  (u.enrolledCourses == req.enrolledCourses.value <==> Encodable(req.enrolledCourses.value)))
  {
    var r := UpdateUser(s, email, req);
    var id :| id in s.users && s.users[id].email == email;
    assert r.reply.value == Some(FormatUser(id, r.state.users[id]));
    assert r.state.users[id].email == email;
    assert r.state.users[id].enrolledCourses == Some(EncodeCourses(req.enrolledCourses));
    if req.enrolledCourses.Some? {
      CoursesRoundTrip(req.enrolledCourses.value);
    }
  }
}
