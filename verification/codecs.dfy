/** Row-to-wire codecs: formatUser and formatTask. */
module Codecs {
  import opened Basics
  import opened Tables
  import opened CourseList

  /** The user object sent to clients. There is no password, program or
      isVerified field: formatUser does not copy them. `gpa` stays the
      decimal text of the column. */
  datatype User = User(
    id: string,
    name: string,
    email: string,
    avatar: Option<string>,
    studentId: Option<string>,
    major: Option<string>,
    department: Option<string>,
    gpa: Option<string>,
    level: Option<int>,
    mode: string,
    isOnboardingComplete: bool,
    enrolledCourses: seq<string>)

  /** The task object sent to clients. */
  datatype Task = Task(
    id: string,
    title: string,
    course: Option<string>,
    priority: Option<string>,
    completed: bool,
    description: Option<string>,
    userId: Option<string>,
    dueDate: Option<string>,
    notificationId: Option<int>)

  /** Mode a user gets when the column is NULL or empty. */
  const DefaultMode: string := "student"

  /** JavaScript `s || fallback` on a nullable string: NULL and '' are falsy. */
  function OrElse(s: Option<string>, fallback: string): (r: string)
    ensures s.Some? && s.value != "" ==> r == s.value
    ensures s == None || s == Some("") ==> r == fallback
  {
    if s.Some? && s.value != "" then s.value else fallback
  }

  /** formatUser: the user row with id `id` as a client sees it. */
  function FormatUser(id: string, row: UserRow): (u: User)
    ensures u.id == id && u.name == row.name && u.email == row.email
    ensures u.avatar == row.avatar && u.studentId == row.studentId
    ensures u.major == row.major && u.department == row.department
    ensures u.gpa == row.gpa && u.level == row.level
    ensures u.mode != ""
    ensures row.mode.Some? && row.mode.value != "" ==> u.mode == row.mode.value
    ensures row.mode == None || row.mode == Some("") ==> u.mode == DefaultMode
    ensures u.isOnboardingComplete <==> row.isOnboardingComplete == 1
    ensures row.enrolledCourses == None || row.enrolledCourses == Some("") ==> u.enrolledCourses == []
    ensures u.enrolledCourses == DecodeCourses(row.enrolledCourses)
    ensures forall i :: 0 <= i < |u.enrolledCourses| ==> u.enrolledCourses[i] != ""
  {
    User(id, row.name, row.email, row.avatar, row.studentId, row.major, row.department,
         row.gpa, row.level, OrElse(row.mode, DefaultMode),
         row.isOnboardingComplete == 1, DecodeCourses(row.enrolledCourses))
  }

  /** formatTask: the task row with id `id` as a client sees it. */
  function FormatTask(id: string, row: TaskRow): (t: Task)
    ensures t.id == id && t.title == row.title
    ensures t.course == row.course && t.priority == row.priority
    ensures t.completed <==> row.completed == 1
    ensures t.description == row.description && t.userId == row.userId
    ensures t.dueDate == row.dueDate && t.notificationId == row.notificationId
  {
    Task(id, row.title, row.course, row.priority, row.completed == 1,
         row.description, row.userId, row.dueDate, row.notificationId)
  }

  /** formatTask loses nothing on a row whose `completed` is 0 or 1: the
      task a client reads back determines the stored row. */
  lemma FormatTaskInjective(id: string, a: TaskRow, b: TaskRow)
    requires a.completed == 0 || a.completed == 1
    requires b.completed == 0 || b.completed == 1
    requires FormatTask(id, a) == FormatTask(id, b)
    ensures a == b
  {
  }

  /** Every 0/1 row is the decoding of its formatted task. */
  function Unformat(t: Task): (row: TaskRow)
    ensures FormatTask(t.id, row) == t
    ensures row.completed == 0 || row.completed == 1
  {
    TaskRow(t.title, t.course, t.priority, Flag(t.completed), t.description, t.userId, t.dueDate, t.notificationId)
  }

  /** Two rows that differ only in a column formatUser does not copy look
      the same to every client. */
  lemma FormatUserHidesSecrets(id: string, row: UserRow, password: string, program: Option<string>, verified: int)
    ensures FormatUser(id, row.(password := password, program := program, isVerified := verified))
            == FormatUser(id, row)
  {
  }
}
