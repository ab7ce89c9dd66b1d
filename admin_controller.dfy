/** The admin's pages: the overview counts, the student list, one student's
    page, and creating, editing, deleting, enrolling and unenrolling students. */
module AdminController {
  import opened Domain
  import opened Query
  import opened Sorting
  import opened Routes
  import opened Authorization
  import opened Requests
  import opened Database
  import opened Validation
  import opened Enrollments
  import opened CourseProgress
  import opened CourseCards
  import CourseController
  import EnrollmentController

  const StudentCreated := "Student created successfully!"
  const StudentUpdated := "Student updated successfully!"
  const StudentDeleted := "Student deleted successfully!"
  const AlreadyEnrolled := "Student is already enrolled in this course."
  const StudentEnrolled := "Student enrolled successfully!"
  const StudentUnenrolled := "Student unenrolled successfully!"
  const NotFoundMessage := "Enrollment not found."

  function HasRole(role: Role): User -> bool {
    (u: User) => u.role == role
  }

  /** `User::where('role', 'student')`, in creation order. */
  function Students(users: seq<User>): seq<User> {
    Where(users, HasRole(Student))
  }

  /** The overview page's figures. */
  datatype Overview = Overview(
    totalStudents: nat,
    totalInstructors: nat,
    totalCourses: nat,
    totalEnrollments: nat,
    recentStudents: seq<User>)

  /** `index`: the users counted by role, all courses and enrollments, and the
      ten newest students, newest first. */
  function Index(users: seq<User>, courses: seq<Course>, enrollments: seq<Enrollment>, p: Principal)
    : (r: Page<Overview>)
    ensures r.Shown? <==> p.SignedIn? && p.role == Admin
    ensures r.Shown? ==> && r.page.totalStudents == Count(users, HasRole(Student))
                         && r.page.totalInstructors == Count(users, HasRole(Instructor))
                         && r.page.totalCourses == |courses| && r.page.totalEnrollments == |enrollments|
    ensures r.Shown? ==> |r.page.recentStudents| == if r.page.totalStudents < 10 then r.page.totalStudents else 10
    ensures r.Shown? ==> forall j :: 0 <= j < |r.page.recentStudents| ==>
              r.page.recentStudents[j] == Students(users)[|Students(users)| - 1 - j]
              && r.page.recentStudents[j] in users && r.page.recentStudents[j].role == Student
  {
    var d := Decide(p, AdminDashboard, NoTarget);
    if d != Allow then Denied(d)
    else Shown(Overview(Count(users, HasRole(Student)), Count(users, HasRole(Instructor)), |courses|, |enrollments|,
                        Take(Reverse(Students(users)), 10)))
  }

  /** Every user has exactly one role, so the per-role counts add up to the
      number of users; the overview's two figures never exceed it. */
  lemma {:induction false} RoleCountsPartitionUsers(users: seq<User>)
    ensures Count(users, HasRole(Student)) + Count(users, HasRole(Instructor)) + Count(users, HasRole(Admin)) == |users|
  {
    if |users| > 0 {
      RoleCountsPartitionUsers(users[1..]);
    }
  }

  /** One row of the student list: the student and the number of its
      enrollment rows (`withCount('enrollments')`). */
  datatype StudentRow = StudentRow(student: User, enrollmentsCount: nat)

  function WithEnrollmentCounts(students: seq<User>, enrollments: seq<Enrollment>): (r: seq<StudentRow>)
    ensures |r| == |students|
    ensures forall j :: 0 <= j < |students| ==>
              r[j].student == students[j] && r[j].enrollmentsCount == Count(enrollments, OfStudent(students[j].id))
  {
    if |students| == 0 then []
    else [StudentRow(students[0], Count(enrollments, OfStudent(students[0].id)))]
         + WithEnrollmentCounts(students[1..], enrollments)
  }

  /** `students`: every student with its enrollment count. */
  function StudentList(users: seq<User>, enrollments: seq<Enrollment>, p: Principal): (r: Page<seq<StudentRow>>)
    ensures r.Shown? <==> p.SignedIn? && p.role == Admin
    ensures r.Shown? ==> |r.page| == Count(users, HasRole(Student))
    ensures r.Shown? ==> forall j :: 0 <= j < |r.page| ==>
              && r.page[j].student in users && r.page[j].student.role == Student
              && r.page[j].enrollmentsCount == Count(enrollments, OfStudent(r.page[j].student.id))
    ensures r.Shown? ==> forall j :: 0 <= j < |users| && users[j].role == Student ==>
              exists k :: 0 <= k < |r.page| && r.page[k].student == users[j]
  {
    var d := Decide(p, AdminStudentsIndex, NoTarget);
    if d != Allow then Denied(d)
    else
      var rows := WithEnrollmentCounts(Students(users), enrollments);
      assert forall j :: 0 <= j < |users| && users[j].role == Student ==> users[j] in Students(users);
      Shown(rows)
  }

  /** Under unique (student, course) pairs a student's enrollment count is the
      number of distinct courses the student is enrolled in. */
  lemma EnrollmentCountIsDistinctCourses(enrollments: seq<Enrollment>, s: Id)
    requires UniqueBy(enrollments, EnrollmentPair)
    ensures Count(enrollments, OfStudent(s)) == |Keys(EnrollmentsOf(enrollments, s), EnrolledCourse)|
  {
    CardsNameDistinctCourses(enrollments, s);
    UniqueKeysCount(EnrollmentsOf(enrollments, s), EnrolledCourse);
  }

  /** The published courses (by title) the student is not enrolled in: the
      choices of the page's enroll form. */
  function Enrollable(courses: seq<Course>, rows: seq<Enrollment>): (r: seq<Course>)
    ensures Sorted(r, CourseTitleLe)
    ensures forall c :: c in r <==> c in courses && c.isPublished && c.id !in Pluck(rows, EnrolledCourse)
  {
    CourseTitleIsTotalPreorder();
    var published := Where(courses, CourseController.IsPublished());
    var sorted := SortBy(published, CourseTitleLe);
    var open := (c: Course) => c.id !in Pluck(rows, EnrolledCourse);
    WhereKeepsSorted(sorted, open, CourseTitleLe);
    assert forall c :: c in Where(sorted, open) <==> c in courses && c.isPublished && open(c) by {
      forall c ensures c in Where(sorted, open) <==> c in courses && c.isPublished && open(c) {
        WhereMembership(sorted, open, c);
        assert c in sorted <==> c in multiset(sorted);
        assert c in published <==> c in multiset(published);
        WhereMembership(courses, CourseController.IsPublished(), c);
      }
    }
    Where(sorted, open)
  }

  /** The student's page: the student, its enrollment count, its completed
      lessons in every course, the enroll choices and a card per enrollment. */
  datatype StudentDetails = StudentDetails(
    student: User,
    enrollmentsCount: nat,
    completedLessons: nat,
    enrollable: seq<Course>,
    cards: seq<Card>)

  /** `showStudent`: everything is about the route's student, never the admin. */
  function ShowStudent(users: seq<User>, courses: seq<Course>, lessons: seq<Lesson>, enrollments: seq<Enrollment>,
                       progress: seq<Progress>, p: Principal, studentId: Id): (r: Page<StudentDetails>)
    ensures r.Denied? <==> !(p.SignedIn? && p.role == Admin && Find(users, UserKey, studentId).Some?
                             && Find(users, UserKey, studentId).value.role == Student)
    ensures !r.Denied? ==> (r.Crashed? <==> Cards(EnrollmentsOf(enrollments, studentId), courses, lessons, progress,
                                                  studentId).None?)
    ensures r.Shown? ==> && Some(r.page.student) == Find(users, UserKey, studentId)
                         && r.page.enrollmentsCount == Count(enrollments, OfStudent(studentId))
                         && r.page.completedLessons == CompletedLessons(progress, studentId)
                         && r.page.enrollable == Enrollable(courses, EnrollmentsOf(enrollments, studentId))
                         && Some(r.page.cards) == Cards(EnrollmentsOf(enrollments, studentId), courses, lessons,
                                                        progress, studentId)
  {
    var t := MemberTarget(users, courses, studentId, None);
    var d := Decide(p, AdminStudentsShow, t);
    if d != Allow then Denied(d)
    else
      var student := t.member.value;
      var rows := EnrollmentsOf(enrollments, student.id);
      match Cards(rows, courses, lessons, progress, student.id)
      case None => Crashed
      case Some(cards) =>
        Shown(StudentDetails(student, |rows|, CompletedLessons(progress, student.id), Enrollable(courses, rows), cards))
  }

  /** Which admin looks makes no difference, and the cards are the very cards
      the student's own enrollment list shows. */
  lemma StudentPageIsTheStudents(users: seq<User>, courses: seq<Course>, lessons: seq<Lesson>,
                                 enrollments: seq<Enrollment>, progress: seq<Progress>, a1: Id, a2: Id, s: Id)
    requires ShowStudent(users, courses, lessons, enrollments, progress, SignedIn(a1, Admin), s).Shown?
    ensures ShowStudent(users, courses, lessons, enrollments, progress, SignedIn(a2, Admin), s)
            == ShowStudent(users, courses, lessons, enrollments, progress, SignedIn(a1, Admin), s)
    ensures EnrollmentController.Index(courses, lessons, enrollments, progress, SignedIn(s, Student)).Shown?
    ensures EnrollmentController.Index(courses, lessons, enrollments, progress, SignedIn(s, Student)).page
            == ShowStudent(users, courses, lessons, enrollments, progress, SignedIn(a1, Admin), s).page.cards
  {
  }

  /** `createStudent`: the empty form, for admins. */
  function CreateStudent(p: Principal): (r: Page<()>)
    ensures r.Shown? <==> p.SignedIn? && p.role == Admin
    ensures p.Guest? ==> r == Denied(RedirectToLogin)
  {
    var d := Decide(p, AdminStudentsCreate, NoTarget);
    if d != Allow then Denied(d) else Shown(())
  }

  /** The student form: name, email, and the password with its confirmation. */
  datatype StudentForm = StudentForm(
    name: Field<string>,
    email: Field<string>,
    password: Field<string>,
    passwordConfirmation: Field<string>)

  function UserEmail(u: User): string { u.email }

  /** `unique:users,email[,except]`: another row, apart from the one with id
      `except`, already has the email. */
  predicate EmailTaken(users: seq<User>, email: string, except: Option<Id>) {
    exists j :: 0 <= j < |users| && users[j].email == email && (except.None? || users[j].id != except.value)
  }

  /** `required|string|email|max:255|unique:...`. */
  predicate EmailRule(users: seq<User>, f: Field<string>, except: Option<Id>, fx: Foreign) {
    RequiredString(f, 255) && fx.isEmail(f.value) && !EmailTaken(users, f.value, except)
  }

  /** `confirmed` and `Password::defaults()` on a password that was sent. */
  predicate PasswordRules(f: StudentForm, fx: Foreign) {
    Confirmed(f.password, f.passwordConfirmation) && fx.passwordAccepted(f.password.value)
  }

  /** The rules of `storeStudent`: the password is required. */
  predicate ValidNewStudent(users: seq<User>, f: StudentForm, fx: Foreign) {
    && RequiredString(f.name, 255)
    && EmailRule(users, f.email, None, fx)
    && Required(f.password) && PasswordRules(f, fx)
  }

  /** The rules of `updateStudent`: the student's own email does not count as
      taken, and the password may be left out or empty; one that is empty
      once trimmed is not checked at all. */
  predicate ValidStudentUpdate(users: seq<User>, studentId: Id, f: StudentForm, fx: Foreign) {
    && RequiredString(f.name, 255)
    && EmailRule(users, f.email, Some(studentId), fx)
    && (match f.password
        case Absent | Blank => true
        case Malformed => false
        case Filled(s) => Trim(s) == [] || PasswordRules(f, fx))
  }

  /** The user `storeStudent` creates: always a student, with the hashed password. */
  function NewStudent(id: Id, f: StudentForm, fx: Foreign): User
    requires f.name.Filled? && f.email.Filled? && f.password.Filled?
  {
    User(id, f.name.value, f.email.value, fx.hash(f.password.value), Student)
  }

  /** `updateStudent` writes the name and the email, and a new hash only when a
      password was sent that PHP does not take for empty. */
  function UpdatedStudent(u: User, f: StudentForm, fx: Foreign): User
    requires f.name.Filled? && f.email.Filled?
  {
    u.(name := f.name.value, email := f.email.value,
       password := if f.password.Filled? && !Falsy(f.password.value) then fx.hash(f.password.value) else u.password)
  }

  /** What the two forms write: the new user is a student with the form's name
      and email; an update keeps the id and the role, and keeps the stored hash
      unless a usable password was sent. */
  lemma StudentRecords(id: Id, u: User, f: StudentForm, fx: Foreign)
    requires f.name.Filled? && f.email.Filled?
    ensures f.password.Filled? ==> && NewStudent(id, f, fx).role == Student && NewStudent(id, f, fx).id == id
                                   && NewStudent(id, f, fx).password == fx.hash(f.password.value)
    ensures UpdatedStudent(u, f, fx).id == u.id && UpdatedStudent(u, f, fx).role == u.role
    ensures UpdatedStudent(u, f, fx).name == f.name.value && UpdatedStudent(u, f, fx).email == f.email.value
    ensures UpdatedStudent(u, f, fx).password != u.password ==> f.password.Filled? && !Falsy(f.password.value)
    ensures !f.password.Filled? ==> UpdatedStudent(u, f, fx).password == u.password
  {
  }

  /** A password made only of whitespace, eight spaces say: `storeStudent`
      refuses it at `required`, while `updateStudent` skips its confirmation
      and strength rules and, the password not being empty, stores its hash. */
  lemma BlankPassword(users: seq<User>, studentId: Id, u: User, f: StudentForm, fx: Foreign)
    requires f.password.Filled? && forall i :: 0 <= i < |f.password.value| ==> Trimmed(f.password.value[i])
    ensures !ValidNewStudent(users, f, fx)
    ensures ValidStudentUpdate(users, studentId, f, fx)
            <==> RequiredString(f.name, 255) && EmailRule(users, f.email, Some(studentId), fx)
    ensures f.name.Filled? && f.email.Filled? && 0 < |f.password.value|
            ==> UpdatedStudent(u, f, fx).password == fx.hash(f.password.value)
  {
    BlankIffAllTrimmed(f.password.value);
  }

  /** A store that passes validation keeps emails unique. */
  lemma StoreKeepsEmailsUnique(users: seq<User>, id: Id, f: StudentForm, fx: Foreign)
    requires UniqueBy(users, UserEmail)
    requires ValidNewStudent(users, f, fx)
    ensures UniqueBy(users + [NewStudent(id, f, fx)], UserEmail)
  {
    AppendKeepsUnique(users, UserEmail, NewStudent(id, f, fx));
  }

  /** An update that passes validation keeps emails unique: the only row the
      uniqueness rule ignores is the updated row itself. */
  lemma UpdateKeepsEmailsUnique(users: seq<User>, i: nat, f: StudentForm, fx: Foreign)
    requires UniqueBy(users, UserEmail) && UniqueBy(users, UserKey) && i < |users|
    requires ValidStudentUpdate(users, users[i].id, f, fx)
    ensures UniqueBy(users[i := UpdatedStudent(users[i], f, fx)], UserEmail)
  {
    var r := users[i := UpdatedStudent(users[i], f, fx)];
    forall a, b | 0 <= a < b < |r| ensures UserEmail(r[a]) != UserEmail(r[b]) {
      if a == i {
        assert users[b].id != users[i].id;
      } else if b == i {
        assert users[a].id != users[i].id;
      }
    }
  }

  /** `storeStudent`. */
  method StoreStudent(db: Db, p: Principal, f: StudentForm, fx: Foreign) returns (r: Response)
    requires db.Valid()
    modifies db`users, db`nextId
    ensures db.Valid()
    ensures var d := Decide(p, AdminStudentsStore, NoTarget);
      if d != Allow then r == Refused(d) && db.users == old(db.users) && db.nextId == old(db.nextId)
      else if !ValidNewStudent(old(db.users), f, fx) then
        r == Invalid && db.users == old(db.users) && db.nextId == old(db.nextId)
      else && r == Succeeded(StudentCreated)
           && db.nextId == old(db.nextId) + 1
           && db.users == old(db.users) + [NewStudent(old(db.nextId), f, fx)]
  {
    var d := Decide(p, AdminStudentsStore, NoTarget);
    if d != Allow {
      return Refused(d);
    }
    if !ValidNewStudent(db.users, f, fx) {
      return Invalid;
    }
    var id := db.NewId();
    var u := NewStudent(id, f, fx);
    InsertFresh(db.users, UserKey, id, u);
    db.users := db.users + [u];
    r := Succeeded(StudentCreated);
  }

  /** `editStudent`: the form, for a user who is a student. */
  function EditStudent(users: seq<User>, courses: seq<Course>, p: Principal, studentId: Id): (r: Page<User>)
    ensures r.Shown? <==> p.SignedIn? && p.role == Admin && Find(users, UserKey, studentId).Some?
                          && Find(users, UserKey, studentId).value.role == Student
    ensures r.Shown? ==> Some(r.page) == Find(users, UserKey, studentId)
    ensures !r.Crashed?
  {
    var t := MemberTarget(users, courses, studentId, None);
    var d := Decide(p, AdminStudentsEdit, t);
    if d != Allow then Denied(d) else Shown(t.member.value)
  }

  /** `updateStudent`. */
  method UpdateStudent(db: Db, p: Principal, studentId: Id, f: StudentForm, fx: Foreign) returns (r: Response)
    requires db.Valid()
    modifies db`users
    ensures db.Valid()
    ensures var d := Decide(p, AdminStudentsUpdate, MemberTarget(old(db.users), db.courses, studentId, None));
      if d != Allow then r == Refused(d) && db.users == old(db.users)
      else if !ValidStudentUpdate(old(db.users), studentId, f, fx) then r == Invalid && db.users == old(db.users)
      else var i := Locate(old(db.users), UserKey, studentId).value;
        && r == Succeeded(StudentUpdated)
        && db.users == old(db.users)[i := UpdatedStudent(old(db.users)[i], f, fx)]
  {
    var d := Decide(p, AdminStudentsUpdate, MemberTarget(db.users, db.courses, studentId, None));
    if d != Allow {
      return Refused(d);
    }
    if !ValidStudentUpdate(db.users, studentId, f, fx) {
      return Invalid;
    }
    var i := Locate(db.users, UserKey, studentId).value;
    var u := UpdatedStudent(db.users[i], f, fx);
    ReplaceKeepsTable(db.users, UserKey, db.nextId, i, u);
    db.users := db.users[i := u];
    r := Succeeded(StudentUpdated);
  }

  /** `destroyStudent`: deletes the user row; its enrollments, submissions and
      progress rows are not touched. */
  method DestroyStudent(db: Db, p: Principal, studentId: Id) returns (r: Response)
    requires db.Valid()
    modifies db`users
    ensures db.Valid()
    ensures var d := Decide(p, AdminStudentsDestroy, MemberTarget(old(db.users), db.courses, studentId, None));
      if d != Allow then r == Refused(d) && db.users == old(db.users)
      else && r == Succeeded(StudentDeleted)
           && db.users == RemoveAt(old(db.users), Locate(old(db.users), UserKey, studentId).value)
           && Find(db.users, UserKey, studentId).None?
  {
    var d := Decide(p, AdminStudentsDestroy, MemberTarget(db.users, db.courses, studentId, None));
    if d != Allow {
      return Refused(d);
    }
    var i := Locate(db.users, UserKey, studentId).value;
    RemoveKeepsTable(db.users, UserKey, db.nextId, i);
    db.users := RemoveAt(db.users, i);
    r := Succeeded(StudentDeleted);
  }

  /** `course_id` is `required|exists:courses,id`; nothing asks for the course
      to be published. */
  predicate CourseIdRule(courses: seq<Course>, courseId: Field<Id>) {
    courseId.Filled? && Find(courses, CourseKey, courseId.value).Some?
  }

  /** `enrollStudent`: the route's student, the form's course. */
  method EnrollStudent(db: Db, p: Principal, studentId: Id, courseId: Field<Id>, now: Time) returns (r: Response)
    requires db.Valid()
    modifies db`enrollments
    ensures db.Valid()
    ensures var d := Decide(p, AdminStudentsEnroll, MemberTarget(db.users, db.courses, studentId, None));
      if d != Allow then r == Refused(d) && db.enrollments == old(db.enrollments)
      else if !CourseIdRule(db.courses, courseId) then r == Invalid && db.enrollments == old(db.enrollments)
      else if IsEnrolled(old(db.enrollments), studentId, courseId.value) then
        r == Failed(AlreadyEnrolled) && db.enrollments == old(db.enrollments)
      else && r == Succeeded(StudentEnrolled)
           && db.enrollments == old(db.enrollments) + [NewEnrollment(studentId, courseId.value, now)]
  {
    var d := Decide(p, AdminStudentsEnroll, MemberTarget(db.users, db.courses, studentId, None));
    if d != Allow {
      return Refused(d);
    }
    if !CourseIdRule(db.courses, courseId) {
      return Invalid;
    }
    if IsEnrolled(db.enrollments, studentId, courseId.value) {
      return Failed(AlreadyEnrolled);
    }
    EnrollAddsThePair(db.enrollments, studentId, courseId.value, now);
    db.enrollments := db.enrollments + [NewEnrollment(studentId, courseId.value, now)];
    r := Succeeded(StudentEnrolled);
  }

  /** `unenrollStudent`: the route's student and course. */
  method UnenrollStudent(db: Db, p: Principal, studentId: Id, courseId: Id) returns (r: Response)
    requires db.Valid()
    modifies db`enrollments
    ensures db.Valid()
    ensures var d := Decide(p, AdminStudentsUnenroll, MemberTarget(db.users, db.courses, studentId, Some(courseId)));
      if d != Allow then r == Refused(d) && db.enrollments == old(db.enrollments)
      else if !IsEnrolled(old(db.enrollments), studentId, courseId) then
        r == Failed(NotFoundMessage) && db.enrollments == old(db.enrollments)
      else && r == Succeeded(StudentUnenrolled)
           && db.enrollments == RemoveAt(old(db.enrollments), EnrollmentOf(old(db.enrollments), studentId, courseId).value)
           && !IsEnrolled(db.enrollments, studentId, courseId)
  {
    var d := Decide(p, AdminStudentsUnenroll, MemberTarget(db.users, db.courses, studentId, Some(courseId)));
    if d != Allow {
      return Refused(d);
    }
    var e := EnrollmentOf(db.enrollments, studentId, courseId);
    if e.None? {
      return Failed(NotFoundMessage);
    }
    UnenrollRemovesThePair(db.enrollments, studentId, courseId);
    db.enrollments := RemoveAt(db.enrollments, e.value);
    r := Succeeded(StudentUnenrolled);
  }
}
