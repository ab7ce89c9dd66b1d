/** Records of the learning-management database, the signed-in principal and
    the shape of a submitted form field. */
module Domain {

  /** Primary keys; rows are numbered from 1 by the database. */
  type Id = nat

  /** A point in time (the request's `now()` is passed in as one of these). */
  type Time = int

  datatype Option<+T> = None | Some(value: T)

  /** The `role` column of `users`: ENUM('student', 'instructor', 'admin') DEFAULT 'student'. */
  datatype Role = Student | Instructor | Admin

  /** Who makes the request: nobody, or a signed-in user with an id and a role. */
  datatype Principal = Guest | SignedIn(id: Id, role: Role)

  datatype User = User(id: Id, name: string, email: string, password: string, role: Role)

  datatype Course = Course(
    id: Id,
    instructorId: Id,
    title: string,
    description: Option<string>,
    thumbnail: Option<string>,
    isPublished: bool)

  datatype LessonType = Text | Video

  /** `order` may be NULL: an update with a blank order field writes NULL. */
  datatype Lesson = Lesson(
    id: Id,
    courseId: Id,
    title: string,
    content: Option<string>,
    kind: LessonType,
    videoUrl: Option<string>,
    order: Option<int>)

  datatype Assignment = Assignment(
    id: Id,
    courseId: Id,
    title: string,
    description: Option<string>,
    maxScore: int,
    dueDate: Option<Time>)

  datatype Enrollment = Enrollment(studentId: Id, courseId: Id, enrolledAt: Time)

  datatype Submission = Submission(
    id: Id,
    assignmentId: Id,
    studentId: Id,
    text: string,
    attachment: Option<string>,
    submittedAt: Time,
    grade: Option<real>,
    feedback: Option<string>,
    gradedBy: Option<Id>,
    gradedAt: Option<Time>)

  datatype Progress = Progress(studentId: Id, lessonId: Id, isCompleted: bool, completedAt: Option<Time>)

  /** How a request ends before the controller does any work: an answer from
      a middleware, a route binding or an inline check in the controller. */
  datatype Decision =
    | Allow
    | RedirectToLogin                    // the `auth` middleware, for a guest
    | Forbidden(message: string)         // abort(403, ...)
    | NotFound                           // abort(404), or a bound model that does not exist
    | RedirectWithError(message: string) // redirect with an error flash message

  /** What a middleware guard does with a request: abort, or hand it on to
      `$next` and return that response. */
  datatype Handled<+Resp> = Aborted(status: nat, message: string) | Passed(response: Resp)

  /** One field of a submitted form. `Absent` is a field not sent; `Blank` is a
      field sent empty, which the framework turns into null before validation;
      `Malformed` is a value of the wrong kind (text where a number, a date or
      a boolean is expected), which every typed rule refuses. */
  datatype Field<+T> = Absent | Blank | Malformed | Filled(value: T)

  /** The value a nullable field stores when the request carries it. */
  function NullableValue<T>(f: Field<T>): Option<T> {
    if f.Filled? then Some(f.value) else None
  }

  /** `$model->update($validated)` writes only the keys the request carried:
      an absent field keeps the stored value, a blank one stores null. */
  function Overwrite<T>(stored: Option<T>, f: Field<T>): Option<T> {
    if f.Absent? then stored else NullableValue(f)
  }

  /** The calls into library code the core cannot see: the email and URL format
      rules, `Password::defaults()` and `Hash::make`. */
  datatype Foreign = Foreign(
    isEmail: string -> bool,
    isUrl: string -> bool,
    passwordAccepted: string -> bool,
    hash: string -> string)

  /** PHP's falsy strings (`empty()`, or a string used as a condition):
      `""` and `"0"`. */
  predicate Falsy(s: string) {
    s == "" || s == "0"
  }

  /** How a form request ends: refused before the controller acts, sent back
      with validation errors, or redirected with an error or a success message. */
  datatype Response =
    | Refused(decision: Decision)
    | Invalid
    | Failed(message: string)
    | Succeeded(message: string)

  /** How a page request ends: refused, failed with a server error, or shown. */
  datatype Page<+T> = Denied(decision: Decision) | Crashed | Shown(page: T)

  /** Key functions of the tables; `Id` keys for the primary keys. */
  function UserKey(u: User): Id { u.id }
  function CourseKey(c: Course): Id { c.id }
  function LessonKey(l: Lesson): Id { l.id }
  function AssignmentKey(a: Assignment): Id { a.id }
  function SubmissionKey(s: Submission): Id { s.id }
  /** The pairs the code keeps unique by checking before it inserts. */
  function EnrollmentPair(e: Enrollment): (Id, Id) { (e.studentId, e.courseId) }
  function SubmissionPair(s: Submission): (Id, Id) { (s.assignmentId, s.studentId) }
  function ProgressPair(p: Progress): (Id, Id) { (p.studentId, p.lessonId) }
}
