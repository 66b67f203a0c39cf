/** The server as a sequential state machine: start-up seeds the tasks
    table, then each request is one atomic step. Every reachable state keeps
    unique emails, at most one verification code per (email, type), and
    0/1 task completion flags. */
module Server {
  import opened Basics
  import opened Tables
  import Auth
  import Codes
  import Tasks

  /** One request that can change the database, with its body. */
  datatype Request =
    | Register(name: Option<string>, email: Option<string>, password: Option<string>)
    | UpdateUser(userEmail: string, update: Auth.UserUpdate)
    | ChangePassword(email: Option<string>, current: Option<string>, newPassword: Option<string>)
    | DeleteAllUsers
    | StoreCode(email: Option<string>, code: Option<string>, kind: Option<string>)
    | VerifyCode(email: Option<string>, code: Option<string>, kind: Option<string>)
    | ResetPassword(email: Option<string>, newPassword: Option<string>)
    | AddTask(task: Tasks.NewTask)
    | UpdateTask(taskId: string, patch: Tasks.TaskPatch)
    | ToggleTask(taskId: string)
    | DeleteTask(taskId: string)
    | DeleteAllTasks

  /** A request stamped with the clock reading (milliseconds) it runs at. */
  datatype Timed = Timed(now: nat, request: Request)

  /** initDatabase's seed-if-empty step on an existing database. */
  function Boot(s: State): (s': State)
    requires Valid(s)
    ensures Valid(s')
    ensures s'.users == s.users && s'.codes == s.codes && s'.nextCodeId == s.nextCodeId
    ensures |s'.tasks| != 0
    ensures |s.tasks| != 0 ==> s' == s
  {
    s.(tasks := Tasks.SeedTasks(s.tasks))
  }

  /** The database after the first start-up: the four seed tasks and nothing else. */
  function Initial(): (s: State)
    ensures Valid(s)
    ensures s.users == map[] && s.codes == map[]
    ensures s.tasks.Keys == {"1", "2", "3", "4"}
  {
    Boot(Empty())
  }

  /** The database after one request. `encode` stands for
      encodeURIComponent and `datetime` for the DATETIME reading of due dates. */
  function Step(s: State, now: nat, encode: string -> string, datetime: string -> Option<string>, req: Request): (s': State)
    requires Valid(s)
    ensures Valid(s')
  {
    match req
    case Register(name, email, password) => Auth.Register(s, now, encode, name, email, password).state
    case UpdateUser(email, update) => Auth.UpdateUser(s, email, update).state
    case ChangePassword(email, current, newPassword) => Auth.ChangePassword(s, email, current, newPassword).state
    case DeleteAllUsers =>
      var s' := Auth.DeleteAllUsers(s).state;
      assert s'.users == map[];
      s'
    case StoreCode(email, code, kind) => Codes.StoreCode(s, now, email, code, kind).state
    case VerifyCode(email, code, kind) =>
      var s' := Codes.VerifyCode(s, now, email, code, kind).state;
      assert EmailsUnique(s'.users) by {
        forall i, j | i in s'.users && j in s'.users && s'.users[i].email == s'.users[j].email
          ensures i == j
        {
          assert s'.users[i].email == s.users[i].email && s'.users[j].email == s.users[j].email;
        }
      }
      s'
    case ResetPassword(email, newPassword) => Auth.ResetPassword(s, email, newPassword).state
    case AddTask(task) => Tasks.AddTask(s, now, datetime, task).state
    case UpdateTask(id, patch) => Tasks.UpdateTask(s, id, datetime, patch).state
    case ToggleTask(id) => Tasks.ToggleTask(s, id).state
    case DeleteTask(id) => Tasks.DeleteTask(s, id).state
    case DeleteAllTasks => Tasks.DeleteAllTasks(s).state
  }

  /** The database after a sequence of requests, one after another. */
  function Run(s: State, encode: string -> string, datetime: string -> Option<string>, reqs: seq<Timed>): (s': State)
    requires Valid(s)
    ensures Valid(s')
    decreases |reqs|
  {
    if |reqs| == 0 then s
    else Run(Step(s, reqs[0].now, encode, datetime, reqs[0].request), encode, datetime, reqs[1..])
  }

  /** Every state reachable from the first start-up keeps at most one
      verification code per (email, type) and unique emails. */
  lemma ReachableInvariants(encode: string -> string, datetime: string -> Option<string>, reqs: seq<Timed>)
    ensures var s := Run(Initial(), encode, datetime, reqs);
            && OneCodePerPair(s.codes)
            && EmailsUnique(s.users)
            && CompletedIsBoolean(s.tasks)
  {
  }

  /** After a password reset the new password logs in, and no code stored
      for that email before the reset can be verified any more. */
  lemma ResetThenLoginAndVerify(s: State, email: Option<string>, newPassword: Option<string>,
                                now: nat, code: Option<string>, kind: Option<string>)
    requires Valid(s)
    requires Auth.ResetPassword(s, email, newPassword).reply.Ok?
    ensures var s' := Auth.ResetPassword(s, email, newPassword).state;
            && Auth.Login(s', email, newPassword).Ok?
            && Codes.VerifyCode(s', now, email, code, kind).reply.Err?
  {
    var s' := Auth.ResetPassword(s, email, newPassword).state;
    var id :| id in s.users && SqlEq(s.users[id].email, email);
    assert SqlEq(s'.users[id].email, email) && SqlEq(s'.users[id].password, newPassword);
    forall k | k in s'.codes
      ensures !Codes.Redeemable(s'.codes[k], email, code, kind, now)
    {
      assert !SqlEq(s'.codes[k].email, email);
    }
  }

  /** Verifying a registration code marks the user with that email verified
      and leaves every other column of every user as it was. */
  lemma RegistrationVerifiesUser(s: State, now: nat, email: string, code: string)
    requires Valid(s)
    requires Codes.VerifyCode(s, now, Some(email), Some(code), Some(Codes.Registration)).reply.Ok?
    ensures var s' := Codes.VerifyCode(s, now, Some(email), Some(code), Some(Codes.Registration)).state;
            forall id :: id in s.users ==>
              && (s'.users[id].isVerified == 1 <==> s.users[id].email == email || s.users[id].isVerified == 1)
              && s'.users[id] == s.users[id].(isVerified := s'.users[id].isVerified)
  {
    var s' := Codes.VerifyCode(s, now, Some(email), Some(code), Some(Codes.Registration)).state;
    forall id | id in s.users
      ensures s'.users[id].isVerified == 1 <==> s.users[id].email == email || s.users[id].isVerified == 1
    {
      if SqlEq(s.users[id].email, Some(email)) {
        assert s'.users[id] == s.users[id].(isVerified := 1);
      }
    }
  }
}
