/** The task handlers and the seed-if-empty step of start-up. Every task
    request is one atomic transition of the `tasks` table and touches no
    other table. */
module Tasks {
  import opened Basics
  import opened Tables
  import opened Codecs

  /** The body of an add-task request. */
  datatype NewTask = NewTask(
    title: Option<string>,
    course: Option<string>,
    priority: Option<string>,
    description: Option<string>,
    userId: Option<string>,
    dueDate: Option<string>,
    notificationId: Option<int>)

  /** The body of an update-task request: `None` keeps the stored value. */
  datatype TaskPatch = TaskPatch(
    title: Option<string>,
    course: Option<string>,
    priority: Option<string>,
    completed: Option<bool>,
    description: Option<string>,
    dueDate: Option<string>)

  const DefaultCourse: string := "General"
  const DefaultPriority: string := "low"

  /** The four rows start-up inserts into an empty `tasks` table. */
  function SeedRows(): map<string, TaskRow> {
    map[
      "1" := TaskRow("Complete Data Structures Assignment", Some("Computer Science"), Some("high"), 0,
                     Some("Implement binary search tree"), None, None, None),
      "2" := TaskRow("Read Chapter 5 - Algorithms", Some("Computer Science"), Some("medium"), 0,
                     Some("Study sorting algorithms"), None, None, None),
      "3" := TaskRow("Math Problem Set 7", Some("Mathematics"), Some("low"), 0,
                     Some("Linear algebra exercises"), None, None, None),
      "4" := TaskRow("Physics Lab Report", Some("Physics"), Some("high"), 0,
                     Some("Write lab report"), None, None, None)
    ]
  }

  /** Start-up seeding: the default tasks go in only when the table is empty. */
  function SeedTasks(tasks: map<string, TaskRow>): (r: map<string, TaskRow>)
    ensures |tasks| != 0 ==> r == tasks
    ensures |tasks| == 0 ==> r.Keys == {"1", "2", "3", "4"}
    ensures |tasks| == 0 ==> forall id :: id in r ==> r[id].completed == 0 && r[id].userId.None?
    ensures |r| != 0
    ensures CompletedIsBoolean(tasks) ==> CompletedIsBoolean(r)
  {
    if |tasks| == 0 then
      var seed := SeedRows();
      assert "1" in seed;
      seed
    else tasks
  }

  /** Restarting never duplicates seed data: seeding twice is seeding once. */
  lemma SeedIdempotent(tasks: map<string, TaskRow>)
    ensures SeedTasks(SeedTasks(tasks)) == SeedTasks(tasks)
  {
  }

  /** MySQL `NOT` on a non-NULL integer column. */
  function SqlNot(c: int): (r: int)
    ensures r == 1 <==> c == 0
    ensures r == 0 <==> c != 0
  {
    if c == 0 then 1 else 0
  }

  /** JavaScript `v || null` on a string: '' becomes NULL. */
  function NullIfEmpty(v: Option<string>): (r: Option<string>)
    ensures r.None? <==> v.None? || v == Some("")
    ensures r.Some? ==> r == v
  {
    if v == Some("") then None else v
  }

  /** JavaScript `v || null` on a number: 0 becomes NULL. */
  function NullIfZero(v: Option<int>): (r: Option<int>)
    ensures r.None? <==> v.None? || v == Some(0)
    ensures r.Some? ==> r == v
  {
    if v == Some(0) then None else v
  }

  /** SQL `COALESCE(param, column)`. */
  function Coalesce<T>(param: Option<T>, column: Option<T>): (r: Option<T>)
    ensures param.Some? ==> r == param
    ensures param.None? ==> r == column
  {
    if param.Some? then param else column
  }

  /** GET /api/tasks: every stored task, formatted. The order (newest first)
      comes from the database's ORDER BY on a timestamp this model does not keep. */
  function ListTasks(s: State): (r: Reply<set<Task>>)
    ensures r.Ok?
    ensures forall t :: t in r.value ==> t.id in s.tasks && t == FormatTask(t.id, s.tasks[t.id])
    ensures forall id :: id in s.tasks ==> FormatTask(id, s.tasks[id]) in r.value
  {
    Ok(set id | id in s.tasks :: FormatTask(id, s.tasks[id]))
  }

  /** Text bound to the DATETIME column `due_date`, as the database keeps it:
      `datetime(text)` is `None` when MySQL cannot read the text as a
      DATETIME (strict mode rejects the statement) and otherwise the value
      as the driver reads it back and the reply serialises it. NULL stays NULL. */
  function StoredDate(datetime: string -> Option<string>, v: Option<string>): Option<string> {
    if v.Some? then datetime(v.value) else None
  }

  /** The text can be bound to `due_date` without an error. */
  predicate DateStorable(datetime: string -> Option<string>, v: Option<string>) {
    v.None? || datetime(v.value).Some?
  }

  /** POST /api/tasks. The row gets id `now` in decimal, course 'General'
      and priority 'low' when those are missing or empty, description '' when
      missing or empty, and completed false; empty user id and due date and a
      zero notification id are stored as NULL. The reply echoes the request's
      own values for those three. A NULL title, a taken id or a due date that
      is not DATETIME text fails the INSERT with 500. */
  function AddTask(s: State, now: nat, datetime: string -> Option<string>, req: NewTask): (r: Outcome<Task>)
    ensures CompletedIsBoolean(s.tasks) ==> CompletedIsBoolean(r.state.tasks)
    ensures r.state.users == s.users && r.state.codes == s.codes && r.state.nextCodeId == s.nextCodeId
    ensures r.reply.Ok? <==> && req.title.Some? && Decimal(now) !in s.tasks
                             && (req.dueDate.None? || req.dueDate == Some("") || datetime(req.dueDate.value).Some?)
    ensures r.reply.Err? ==> r == Outcome(s, Err(500, "Failed to add task"))
    ensures r.reply.Ok? ==>
              var t := r.reply.value;
              && t.id == Decimal(now)
              && r.state.tasks.Keys == s.tasks.Keys + {t.id}
              && (forall id :: id in s.tasks ==> r.state.tasks[id] == s.tasks[id])
              && t.title == req.title.value && !t.completed
              && (req.course.None? || req.course == Some("") ==> t.course == Some(DefaultCourse))
              && (req.course.Some? && req.course.value != "" ==> t.course == req.course)
              && (req.priority.None? || req.priority == Some("") ==> t.priority == Some(DefaultPriority))
              && (req.priority.Some? && req.priority.value != "" ==> t.priority == req.priority)
              && (req.description.None? || req.description == Some("") ==> t.description == Some(""))
              && (req.description.Some? && req.description.value != "" ==> t.description == req.description)
              && t.userId == req.userId && t.dueDate == req.dueDate && t.notificationId == req.notificationId
              && var row := r.state.tasks[t.id];
              && row.title == t.title && row.course == t.course && row.priority == t.priority
              && row.completed == 0 && row.description == t.description
              && (req.userId.None? || req.userId == Some("") ==> row.userId == None)
              && (req.userId.Some? && req.userId.value != "" ==> row.userId == req.userId)
              && (req.dueDate.None? || req.dueDate == Some("") ==> row.dueDate == None)
              && (req.dueDate.Some? && req.dueDate.value != "" ==> row.dueDate == datetime(req.dueDate.value))
              && (req.notificationId.None? || req.notificationId == Some(0) ==> row.notificationId == None)
              && (req.notificationId.Some? && req.notificationId.value != 0 ==> row.notificationId == req.notificationId)
  {
    var id := Decimal(now);
    var due := NullIfEmpty(req.dueDate);
    if req.title.None? || id in s.tasks || !DateStorable(datetime, due) then
      Outcome(s, Err(500, "Failed to add task"))
    else
      var course := Some(OrElse(req.course, DefaultCourse));
      var priority := Some(OrElse(req.priority, DefaultPriority));
      var description := Some(OrElse(req.description, ""));
      var row := TaskRow(req.title.value, course, priority, 0, description,
                         NullIfEmpty(req.userId), StoredDate(datetime, due), NullIfZero(req.notificationId));
      Outcome(s.(tasks := s.tasks[id := row]),
              Ok(Task(id, req.title.value, course, priority, false, description,
                      req.userId, req.dueDate, req.notificationId)))
  }

  /** The add-task reply agrees with what a later read returns exactly when
      the request sent no empty user id and no zero notification id, and
      either no due date or one the database reads back as the very text
      sent. */
  lemma AddTaskEchoMatchesStored(s: State, now: nat, datetime: string -> Option<string>, req: NewTask)
    requires AddTask(s, now, datetime, req).reply.Ok?
    ensures var r := AddTask(s, now, datetime, req);
            FormatTask(r.reply.value.id, r.state.tasks[r.reply.value.id]) == r.reply.value
            <==> && req.userId != Some("") && req.notificationId != Some(0)
                 && (req.dueDate.None? || (req.dueDate.value != "" && datetime(req.dueDate.value) == req.dueDate))
  {
  }

  /** The row after update-task's per-column COALESCE. */
  function Patched(row: TaskRow, datetime: string -> Option<string>, patch: TaskPatch): TaskRow {
    row.(title := if patch.title.Some? then patch.title.value else row.title,
         course := Coalesce(patch.course, row.course),
         priority := Coalesce(patch.priority, row.priority),
         completed := if patch.completed.Some? then Flag(patch.completed.value) else row.completed,
         description := Coalesce(patch.description, row.description),
         dueDate := if patch.dueDate.Some? then datetime(patch.dueDate.value) else row.dueDate)
  }

  /** PUT /api/tasks/:id. A field sent as null keeps its stored value, a
      non-null field replaces it; user id and notification id never change.
      An unknown id is 404 with nothing changed (the UPDATE matches no row);
      a due date that is not DATETIME text fails the UPDATE with 500. */
  function UpdateTask(s: State, id: string, datetime: string -> Option<string>, patch: TaskPatch): (r: Outcome<Task>)
    ensures CompletedIsBoolean(s.tasks) ==> CompletedIsBoolean(r.state.tasks)
    ensures r.state.users == s.users && r.state.codes == s.codes && r.state.nextCodeId == s.nextCodeId
    ensures r.state.tasks.Keys == s.tasks.Keys
    ensures id !in s.tasks ==> r == Outcome(s, Err(404, "Task not found"))
    ensures id in s.tasks && !DateStorable(datetime, patch.dueDate) ==>
              r == Outcome(s, Err(500, "Failed to update task"))
    ensures r.reply.Ok? <==> id in s.tasks && DateStorable(datetime, patch.dueDate)
    ensures r.reply.Ok? ==>
              var before := s.tasks[id];
              var after := r.state.tasks[id];
              && r.reply == Ok(FormatTask(id, after))
              && (forall other :: other in s.tasks && other != id ==> r.state.tasks[other] == s.tasks[other])
              && after.title == (if patch.title.Some? then patch.title.value else before.title)
              && after.course == (if patch.course.Some? then patch.course else before.course)
              && after.priority == (if patch.priority.Some? then patch.priority else before.priority)
              && (patch.completed.Some? ==> (after.completed == 1 <==> patch.completed.value))
              && (patch.completed.None? ==> after.completed == before.completed)
              && after.description == (if patch.description.Some? then patch.description else before.description)
              && (patch.dueDate.Some? ==> after.dueDate == datetime(patch.dueDate.value))
              && (patch.dueDate.None? ==> after.dueDate == before.dueDate)
              && after.userId == before.userId && after.notificationId == before.notificationId
  {
    if id !in s.tasks then
      Outcome(s, Err(404, "Task not found"))
    else if !DateStorable(datetime, patch.dueDate) then
      Outcome(s, Err(500, "Failed to update task"))
    else
      var row := Patched(s.tasks[id], datetime, patch);
      Outcome(s.(tasks := s.tasks[id := row]), Ok(FormatTask(id, row)))
  }

  /** Sending the same patch twice has the effect of sending it once. */
  lemma UpdateTaskIdempotent(s: State, id: string, datetime: string -> Option<string>, patch: TaskPatch)
    ensures var once := UpdateTask(s, id, datetime, patch);
            UpdateTask(once.state, id, datetime, patch) == once
  {
  }

  /** PATCH /api/tasks/:id/toggle: `completed = NOT completed` on that task
      only; an unknown id is 404 with nothing changed. */
  function ToggleTask(s: State, id: string): (r: Outcome<Task>)
    ensures CompletedIsBoolean(s.tasks) ==> CompletedIsBoolean(r.state.tasks)
    ensures r.state.users == s.users && r.state.codes == s.codes && r.state.nextCodeId == s.nextCodeId
    ensures id !in s.tasks ==> r == Outcome(s, Err(404, "Task not found"))
    ensures id in s.tasks ==>
              && r.state.tasks.Keys == s.tasks.Keys
              && (forall other :: other in s.tasks && other != id ==> r.state.tasks[other] == s.tasks[other])
              && r.reply.Ok? && r.reply.value == FormatTask(id, r.state.tasks[id])
              && (r.reply.value.completed <==> s.tasks[id].completed == 0)
              && r.state.tasks[id] == s.tasks[id].(completed := r.state.tasks[id].completed)
  {
    if id !in s.tasks then
      Outcome(s, Err(404, "Task not found"))
    else
      var row := s.tasks[id].(completed := SqlNot(s.tasks[id].completed));
      Outcome(s.(tasks := s.tasks[id := row]), Ok(FormatTask(id, row)))
  }

  /** On a table whose `completed` values are all 0 or 1, toggling twice
      restores the original state and flips the reported value each time. */
  lemma ToggleTwiceRestores(s: State, id: string)
    requires CompletedIsBoolean(s.tasks)
    requires id in s.tasks
    ensures ToggleTask(ToggleTask(s, id).state, id).state == s
    ensures ToggleTask(s, id).reply.value.completed == !FormatTask(id, s.tasks[id]).completed
  {
    var once := ToggleTask(s, id).state;
    assert once.tasks[id].completed == 1 - s.tasks[id].completed;
    assert ToggleTask(once, id).state.tasks == s.tasks;
  }

  /** Without the 0/1 invariant the double toggle does not restore: NOT
      maps every non-zero value to 0. */
  lemma ToggleTwiceNeedsBoolean()
    ensures var s := State(map[], map["t" := TaskRow("x", None, None, 2, None, None, None, None)], map[], 1);
            ToggleTask(ToggleTask(s, "t").state, "t").state != s
  {
    var s := State(map[], map["t" := TaskRow("x", None, None, 2, None, None, None, None)], map[], 1);
    assert ToggleTask(ToggleTask(s, "t").state, "t").state.tasks["t"].completed == 1;
  }

  /** DELETE /api/tasks/:id: removes the row if present; success either way. */
  function DeleteTask(s: State, id: string): (r: Outcome<()>)
    ensures r.reply.Ok?
    ensures r.state.tasks.Keys == s.tasks.Keys - {id}
    ensures forall other :: other in r.state.tasks ==> r.state.tasks[other] == s.tasks[other]
    ensures r.state.users == s.users && r.state.codes == s.codes && r.state.nextCodeId == s.nextCodeId
  {
    Outcome(s.(tasks := s.tasks - {id}), Ok(()))
  }

  /** Deleting twice is deleting once, and both calls succeed. */
  lemma DeleteTaskIdempotent(s: State, id: string)
    ensures DeleteTask(DeleteTask(s, id).state, id) == DeleteTask(s, id)
  {
  }

  /** DELETE /api/tasks: empties the table; success even when already empty. */
  function DeleteAllTasks(s: State): (r: Outcome<()>)
    ensures r.reply.Ok?
    ensures r.state.tasks == map[]
    ensures r.state.users == s.users && r.state.codes == s.codes && r.state.nextCodeId == s.nextCodeId
  {
    Outcome(s.(tasks := map[]), Ok(()))
  }

  /** Deleting everything twice is deleting it once. */
  lemma DeleteAllTasksIdempotent(s: State)
    ensures DeleteAllTasks(DeleteAllTasks(s).state) == DeleteAllTasks(s)
  {
  }
}
