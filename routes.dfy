/** The route table: every named route of the core and the middleware group it
    sits in. */
module Routes {
  import opened Domain
  import EnsureUserIsInstructor
  import EnsureUserIsStudent

  datatype Action =
    | CoursesBrowse | CoursesShow
    | Dashboard
    | AdminDashboard | AdminStudentsIndex | AdminStudentsCreate | AdminStudentsStore
    | AdminStudentsShow | AdminStudentsEdit | AdminStudentsUpdate | AdminStudentsDestroy
    | AdminStudentsEnroll | AdminStudentsUnenroll
    | CoursesIndex | CoursesCreate | CoursesStore | CoursesEdit | CoursesUpdate | CoursesDestroy
    | LessonsCreate | LessonsStore | LessonsEdit | LessonsUpdate | LessonsDestroy | LessonsShow
    | AssignmentsIndex | AssignmentsCreate | AssignmentsStore | AssignmentsEdit
    | AssignmentsUpdate | AssignmentsDestroy | AssignmentsShow
    | SubmissionsStore | SubmissionsUpdate
    | EnrollmentsStore | EnrollmentsDestroy | EnrollmentsIndex

  /** The middleware a route runs before its controller: none, `auth` alone, or
      `auth` followed by one role guard. */
  datatype Guard = Public | Auth | AuthAdmin | AuthInstructor | AuthStudent

  function GuardOf(a: Action): Guard {
    match a
    case CoursesBrowse | CoursesShow => Public
    case AdminDashboard | AdminStudentsIndex | AdminStudentsCreate | AdminStudentsStore
      | AdminStudentsShow | AdminStudentsEdit | AdminStudentsUpdate | AdminStudentsDestroy
      | AdminStudentsEnroll | AdminStudentsUnenroll => AuthAdmin
    case LessonsCreate | LessonsStore | LessonsEdit | LessonsUpdate | LessonsDestroy => AuthInstructor
    case AssignmentsIndex | AssignmentsCreate | AssignmentsStore | AssignmentsEdit
      | AssignmentsUpdate | AssignmentsDestroy => AuthInstructor
    case SubmissionsUpdate => AuthInstructor
    case SubmissionsStore => AuthStudent
    case EnrollmentsStore | EnrollmentsDestroy | EnrollmentsIndex => AuthStudent
    case Dashboard | CoursesIndex | CoursesCreate | CoursesStore | CoursesEdit | CoursesUpdate
      | CoursesDestroy | LessonsShow | AssignmentsShow => Auth
  }

  /** The `admin` middleware is registered but its code is not part of this
      model; it is taken to admit exactly the admins and to answer 403 otherwise. */
  function AdminGuard(p: Principal): Decision {
    if p.SignedIn? && p.role == Admin then Allow else Forbidden("")
  }

  /** A middleware abort becomes a 403 decision; passing on to `$next` reaches
      the controller, here `Allow`. */
  function FromHandled(h: Handled<Decision>): Decision {
    match h
    case Aborted(_, message) => Forbidden(message)
    case Passed(d) => d
  }

  /** What the role guard of `g` answers for `p` (after `auth` has let it in). */
  function RoleGuardDecision(g: Guard, p: Principal): (d: Decision)
    ensures d == Allow || d.Forbidden?
  {
    match g
    case Public | Auth => Allow
    case AuthAdmin => AdminGuard(p)
    case AuthInstructor => FromHandled(EnsureUserIsInstructor.Handle(p, (), (_: ()) => Allow))
    case AuthStudent => FromHandled(EnsureUserIsStudent.Handle(p, (), (_: ()) => Allow))
  }

  predicate IsLessonManagement(a: Action) {
    a.LessonsCreate? || a.LessonsStore? || a.LessonsEdit? || a.LessonsUpdate? || a.LessonsDestroy?
  }

  predicate IsAssignmentManagement(a: Action) {
    a.AssignmentsCreate? || a.AssignmentsStore? || a.AssignmentsEdit? || a.AssignmentsUpdate?
    || a.AssignmentsDestroy?
  }

  predicate IsCourseManagement(a: Action) {
    a.CoursesIndex? || a.CoursesCreate? || a.CoursesStore? || a.CoursesEdit? || a.CoursesUpdate?
    || a.CoursesDestroy?
  }

  predicate IsAdminAction(a: Action) {
    a.AdminDashboard? || a.AdminStudentsIndex? || a.AdminStudentsCreate? || a.AdminStudentsStore?
    || a.AdminStudentsShow? || a.AdminStudentsEdit? || a.AdminStudentsUpdate?
    || a.AdminStudentsDestroy? || a.AdminStudentsEnroll? || a.AdminStudentsUnenroll?
  }

  predicate IsEnrollmentAction(a: Action) {
    a.EnrollmentsStore? || a.EnrollmentsDestroy? || a.EnrollmentsIndex?
  }

  /** Lesson management sits behind the instructor guard; viewing a lesson
      needs only a signed-in user. */
  lemma LessonRoutes(a: Action)
    ensures IsLessonManagement(a) ==> GuardOf(a) == AuthInstructor
    ensures GuardOf(LessonsShow) == Auth
  {
  }

  /** The assignment list and assignment management sit behind the instructor
      guard; viewing one assignment needs only a signed-in user. */
  lemma AssignmentRoutes(a: Action)
    ensures IsAssignmentManagement(a) || a == AssignmentsIndex ==> GuardOf(a) == AuthInstructor
    ensures GuardOf(AssignmentsShow) == Auth
  {
  }

  /** Submitting needs the student guard, grading the instructor guard. */
  lemma SubmissionRoutes()
    ensures GuardOf(SubmissionsStore) == AuthStudent
    ensures GuardOf(SubmissionsUpdate) == AuthInstructor
  {
  }

  /** Enrolling, unenrolling and the enrollment list need the student guard. */
  lemma EnrollmentRoutes(a: Action)
    ensures IsEnrollmentAction(a) ==> GuardOf(a) == AuthStudent
  {
  }

  /** Every `admin.*` route needs the admin guard, and no other route does. */
  lemma AdminRoutes(a: Action)
    ensures IsAdminAction(a) <==> GuardOf(a) == AuthAdmin
  {
  }

  /** The course routes need a signed-in user and no role. */
  lemma CourseRoutes(a: Action)
    ensures IsCourseManagement(a) ==> GuardOf(a) == Auth
  {
  }

  /** Browsing and showing a course need no sign-in, and they are the only such routes. */
  lemma PublicRoutes(a: Action)
    ensures GuardOf(a) == Public <==> a == CoursesBrowse || a == CoursesShow
  {
  }

  /** A role guard admits a signed-in principal exactly when the roles match. */
  lemma RoleGuardsByRole(g: Guard, id: Id, role: Role)
    ensures g == AuthAdmin ==> (RoleGuardDecision(g, SignedIn(id, role)) == Allow <==> role == Admin)
    ensures g == AuthInstructor ==>
      RoleGuardDecision(g, SignedIn(id, role))
        == if role == Instructor then Allow else Forbidden(EnsureUserIsInstructor.Message)
    ensures g == AuthStudent ==>
      RoleGuardDecision(g, SignedIn(id, role))
        == if role == Student then Allow else Forbidden(EnsureUserIsStudent.Message)
  {
  }
}
