/** The decision a request meets before its controller changes anything: the
    `auth` middleware, the route's model bindings, the role guard, then the
    inline checks of the controller. */
module Authorization {
  import opened Domain
  import opened Routes
  import CoursePolicy
  import EnsureUserIsInstructor
  import EnsureUserIsStudent

  const MustEnrollToViewLessons := "You must enroll in this course to view lessons."
  const MustEnrollToViewAssignments := "You must be enrolled in this course to view assignments."
  const MustEnrollToSubmit := "You must be enrolled in this course to submit assignments."

  /** What a request names and what the checks read: the route's course, the
      route's `{student}` user, whether the principal has an enrollment row for
      that course, and whether the other bound models (lesson, assignment,
      submission) exist. */
  datatype Target = Target(course: Option<Course>, member: Option<User>, enrolled: bool, othersFound: bool)

  predicate BindsCourse(a: Action) {
    a.CoursesShow? || a.CoursesEdit? || a.CoursesUpdate? || a.CoursesDestroy?
    || IsLessonManagement(a) || a.LessonsShow?
    || IsAssignmentManagement(a) || a.AssignmentsIndex? || a.AssignmentsShow?
    || a.SubmissionsStore? || a.SubmissionsUpdate?
    || a.EnrollmentsStore? || a.EnrollmentsDestroy? || a.AdminStudentsUnenroll?
  }

  predicate BindsMember(a: Action) {
    a.AdminStudentsShow? || a.AdminStudentsEdit? || a.AdminStudentsUpdate?
    || a.AdminStudentsDestroy? || a.AdminStudentsEnroll? || a.AdminStudentsUnenroll?
  }

  /** Implicit route-model binding answers 404 for an id with no row. */
  predicate Bound(a: Action, t: Target) {
    && t.othersFound
    && (BindsCourse(a) ==> t.course.Some?)
    && (BindsMember(a) ==> t.member.Some?)
  }

  predicate IsOwner(p: Principal, c: Course) {
    p.SignedIn? && p.id == c.instructorId
  }

  /** `Auth::id() !== $course->instructor_id` answers abort(403), whatever the role. */
  function OwnerOnly(p: Principal, c: Course): Decision {
    if IsOwner(p, c) then Allow else Forbidden("")
  }

  /** `role !== 'instructor' || Auth::id() !== $course->instructor_id` answers abort(403). */
  function InstructorOwnerOnly(p: Principal, c: Course): Decision {
    if p.SignedIn? && p.role == Instructor && IsOwner(p, c) then Allow else Forbidden("")
  }

  /** The checks written inline in the controllers. */
  function ControllerCheck(p: Principal, a: Action, t: Target): Decision
    requires Bound(a, t)
    requires GuardOf(a) != Public ==> p.SignedIn?
  {
    match a
    case CoursesEdit | CoursesUpdate | CoursesDestroy => OwnerOnly(p, t.course.value)
    case LessonsCreate | LessonsStore | LessonsEdit | LessonsUpdate | LessonsDestroy =>
      OwnerOnly(p, t.course.value)
    case LessonsShow =>
      if p.role == Student then
        (if t.enrolled then Allow else RedirectWithError(MustEnrollToViewLessons))
      else OwnerOnly(p, t.course.value)
    case AssignmentsIndex =>
      if p.role != Admin && (p.role != Instructor || p.id != t.course.value.instructorId)
      then Forbidden("") else Allow
    case AssignmentsCreate | AssignmentsStore | AssignmentsEdit | AssignmentsUpdate
      | AssignmentsDestroy => InstructorOwnerOnly(p, t.course.value)
    case AssignmentsShow =>
      (match p.role
       case Admin => Allow
       case Instructor => OwnerOnly(p, t.course.value)
       case Student => if t.enrolled then Allow else Forbidden(MustEnrollToViewAssignments))
    case SubmissionsStore =>
      if p.role != Student then Forbidden("")
      else if !t.enrolled then RedirectWithError(MustEnrollToSubmit)
      else Allow
    case SubmissionsUpdate => InstructorOwnerOnly(p, t.course.value)
    case AdminStudentsShow | AdminStudentsEdit | AdminStudentsUpdate | AdminStudentsDestroy
      | AdminStudentsEnroll | AdminStudentsUnenroll =>
      if t.member.value.role != Student then NotFound else Allow
    case _ => Allow
  }

  /** The whole decision: `auth`, then the bindings, then the role guard, then
      the controller's checks; the first refusal is the answer. */
  function Decide(p: Principal, a: Action, t: Target): Decision {
    var g := GuardOf(a);
    if g != Public && p.Guest? then RedirectToLogin
    else if !Bound(a, t) then NotFound
    else
      var d := RoleGuardDecision(g, p);
      if d != Allow then d else ControllerCheck(p, a, t)
  }

  /** An allowed request has passed both the route's guard and the controller's check. */
  lemma AllowNeedsGuardAndCheck(p: Principal, a: Action, t: Target)
    requires Decide(p, a, t) == Allow
    ensures GuardOf(a) != Public ==> p.SignedIn?
    ensures Bound(a, t)
    ensures RoleGuardDecision(GuardOf(a), p) == Allow
    ensures ControllerCheck(p, a, t) == Allow
  {
  }

  /** A guest reaches only the two public routes; every other route sends a
      guest to the login page. */
  lemma GuestOnlyPublic(a: Action, t: Target)
    ensures GuardOf(a) != Public ==> Decide(Guest, a, t) == RedirectToLogin
    ensures Decide(Guest, a, t) == Allow ==> a == CoursesBrowse || a == CoursesShow
  {
  }

  /** Editing, updating and deleting a course is ownership alone: an admin who
      does not own the course is refused like anyone else, and the answer is the
      policy's `update`. */
  lemma CourseManagementIsOwnership(u: User, a: Action, t: Target)
    requires a == CoursesEdit || a == CoursesUpdate || a == CoursesDestroy
    requires t.othersFound && t.course.Some?
    ensures Decide(SignedIn(u.id, u.role), a, t) == Allow <==> u.id == t.course.value.instructorId
    ensures Decide(SignedIn(u.id, u.role), a, t) == Allow <==> CoursePolicy.Update(u, t.course.value)
    ensures Decide(SignedIn(u.id, u.role), a, t) != Allow ==> Decide(SignedIn(u.id, u.role), a, t) == Forbidden("")
  {
  }

  /** Viewing a lesson: an enrolled student, or a non-student who owns the
      course; a student who is not enrolled is redirected with an error, anyone
      else who does not own the course gets 403. */
  lemma LessonShowAccess(id: Id, role: Role, t: Target)
    requires t.othersFound && t.course.Some?
    ensures role == Student ==>
      Decide(SignedIn(id, role), LessonsShow, t)
        == if t.enrolled then Allow else RedirectWithError(MustEnrollToViewLessons)
    ensures role != Student ==>
      Decide(SignedIn(id, role), LessonsShow, t)
        == if id == t.course.value.instructorId then Allow else Forbidden("")
  {
  }

  /** Managing lessons needs an instructor who owns the course; the route's
      guard refuses every admin and student. */
  lemma LessonManagementAccess(id: Id, role: Role, a: Action, t: Target)
    requires IsLessonManagement(a) && t.othersFound && t.course.Some?
    ensures Decide(SignedIn(id, role), a, t) == Allow
      <==> role == Instructor && id == t.course.value.instructorId
    ensures role != Instructor ==>
      Decide(SignedIn(id, role), a, t) == Forbidden(EnsureUserIsInstructor.Message)
  {
  }

  /** The controller would admit an admin to the assignment list, but the
      route's instructor guard refuses the admin first. */
  lemma AssignmentIndexRefusesAdmins(id: Id, t: Target)
    requires t.othersFound && t.course.Some?
    ensures ControllerCheck(SignedIn(id, Admin), AssignmentsIndex, t) == Allow
    ensures Decide(SignedIn(id, Admin), AssignmentsIndex, t) == Forbidden(EnsureUserIsInstructor.Message)
    ensures forall role: Role ::
              (Decide(SignedIn(id, role), AssignmentsIndex, t) == Allow
               <==> role == Instructor && id == t.course.value.instructorId)
  {
  }

  /** Managing assignments needs an instructor who owns the course. */
  lemma AssignmentManagementAccess(id: Id, role: Role, a: Action, t: Target)
    requires IsAssignmentManagement(a) && t.othersFound && t.course.Some?
    ensures Decide(SignedIn(id, role), a, t) == Allow
      <==> role == Instructor && id == t.course.value.instructorId
  {
  }

  /** Viewing an assignment: any admin, the owning instructor, an enrolled student. */
  lemma AssignmentShowAccess(id: Id, role: Role, t: Target)
    requires t.othersFound && t.course.Some?
    ensures Decide(SignedIn(id, role), AssignmentsShow, t) == Allow
      <==> (role == Admin || (role == Instructor && id == t.course.value.instructorId)
           || (role == Student && t.enrolled))
    ensures role == Student && !t.enrolled ==>
      Decide(SignedIn(id, role), AssignmentsShow, t) == Forbidden(MustEnrollToViewAssignments)
  {
  }

  /** Submitting needs an enrolled student; a non-student is refused by the
      route's student guard with 403. */
  lemma SubmitAccess(id: Id, role: Role, t: Target)
    requires t.othersFound && t.course.Some?
    ensures role != Student ==> Decide(SignedIn(id, role), SubmissionsStore, t) == Forbidden(EnsureUserIsStudent.Message)
    ensures role == Student ==>
      Decide(SignedIn(id, role), SubmissionsStore, t)
        == if t.enrolled then Allow else RedirectWithError(MustEnrollToSubmit)
  {
  }

  /** Grading needs an instructor who owns the route's course. */
  lemma GradeAccess(id: Id, role: Role, t: Target)
    requires t.othersFound && t.course.Some?
    ensures Decide(SignedIn(id, role), SubmissionsUpdate, t) == Allow
      <==> role == Instructor && id == t.course.value.instructorId
  {
  }

  /** The enrollment routes admit every signed-in student and nobody else; the
      course's publication state is not consulted. */
  lemma EnrollmentAccess(id: Id, role: Role, a: Action, t: Target)
    requires IsEnrollmentAction(a) && t.othersFound && t.course.Some?
    ensures Decide(SignedIn(id, role), a, t) == Allow <==> role == Student
    ensures Decide(SignedIn(id, role), a, t.(course := Some(t.course.value.(isPublished := !t.course.value.isPublished))))
      == Decide(SignedIn(id, role), a, t)
  {
  }

  /** The admin's per-student pages answer 404 when the user is not a student. */
  lemma AdminMemberMustBeStudent(id: Id, a: Action, t: Target)
    requires BindsMember(a) && t.othersFound && t.member.Some?
    requires a == AdminStudentsUnenroll ==> t.course.Some?
    ensures Decide(SignedIn(id, Admin), a, t) == if t.member.value.role == Student then Allow else NotFound
    ensures forall role: Role :: role != Admin ==> Decide(SignedIn(id, role), a, t) == Forbidden("")
  {
  }

  /** A student is refused every management action of courses' content and
      every admin action. */
  lemma StudentsManageNothing(id: Id, a: Action, t: Target)
    requires IsLessonManagement(a) || IsAssignmentManagement(a) || a == SubmissionsUpdate || IsAdminAction(a)
    ensures Decide(SignedIn(id, Student), a, t) != Allow
  {
  }
}
