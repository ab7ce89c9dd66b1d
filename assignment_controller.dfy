/** The assignment pages of a course: the instructor's list, creating,
    editing and deleting assignments, and viewing one assignment with its
    submissions. */
module AssignmentController {
  import opened Domain
  import opened Query
  import opened Routes
  import opened Authorization
  import opened Requests
  import opened Database
  import opened Validation
  import opened Submissions
  import Enrollments

  const Created := "Assignment created successfully!"
  const Updated := "Assignment updated successfully!"
  const Deleted := "Assignment deleted successfully!"

  function OfCourse(c: Id): Assignment -> bool {
    (a: Assignment) => a.courseId == c
  }

  function ForAssignment(a: Id): Submission -> bool {
    (s: Submission) => s.assignmentId == a
  }

  /** What the list shows: the course and its assignments. */
  datatype AssignmentList = AssignmentList(course: Course, assignments: seq<Assignment>)

  /** `index`: the course's assignments, for its own instructor. */
  function Index(courses: seq<Course>, assignments: seq<Assignment>, enrollments: seq<Enrollment>, p: Principal,
                 courseId: Id): (r: Page<AssignmentList>)
    ensures r.Shown? <==> p.SignedIn? && p.role == Instructor && Find(courses, CourseKey, courseId).Some?
                          && p.id == Find(courses, CourseKey, courseId).value.instructorId
    ensures r.Shown? ==> forall j :: 0 <= j < |r.page.assignments| ==>
              r.page.assignments[j] in assignments && r.page.assignments[j].courseId == courseId
    ensures r.Shown? ==> forall j :: 0 <= j < |assignments| && assignments[j].courseId == courseId ==>
              assignments[j] in r.page.assignments
  {
    var t := CourseTarget(courses, enrollments, p, courseId, true);
    var d := Decide(p, AssignmentsIndex, t);
    if d != Allow then Denied(d) else Shown(AssignmentList(t.course.value, Where(assignments, OfCourse(courseId))))
  }

  /** The assignment form. */
  datatype AssignmentForm = AssignmentForm(
    title: Field<string>,
    description: Field<string>,
    maxScore: Field<int>,
    dueDate: Field<Time>)

  /** The rules of `store`: a maximum score of 1 to 1000 and, if given, a due
      date strictly after the time of the request. */
  predicate ValidNewAssignment(f: AssignmentForm, now: Time) {
    && RequiredString(f.title, 255)
    && NullableString(f.description, None)
    && RequiredIntBetween(f.maxScore, 1, 1000)
    && NullableDate(f.dueDate, Some(now))
  }

  /** The rules of `update`: the same, but any due date, also a past one. */
  predicate ValidAssignmentUpdate(f: AssignmentForm) {
    && RequiredString(f.title, 255)
    && NullableString(f.description, None)
    && RequiredIntBetween(f.maxScore, 1, 1000)
    && NullableDate(f.dueDate, None)
  }

  /** Every form `store` accepts, `update` accepts too; a due date in the past
      is what only `update` accepts. */
  lemma UpdateRulesAreLaxer(f: AssignmentForm, now: Time)
    ensures ValidNewAssignment(f, now) ==> ValidAssignmentUpdate(f)
    ensures ValidAssignmentUpdate(f) && !ValidNewAssignment(f, now) <==>
              ValidAssignmentUpdate(f) && f.dueDate.Filled? && f.dueDate.value <= now
  {
  }

  function NewAssignment(id: Id, courseId: Id, f: AssignmentForm): Assignment
    requires f.title.Filled? && f.maxScore.Filled?
  {
    Assignment(id, courseId, f.title.value, NullableValue(f.description), f.maxScore.value, NullableValue(f.dueDate))
  }

  /** `$assignment->update($validated)`: description and due date only when
      the form carries them. The id and the course stay. */
  function UpdatedAssignment(a: Assignment, f: AssignmentForm): Assignment
    requires f.title.Filled? && f.maxScore.Filled?
  {
    a.(title := f.title.value, description := Overwrite(a.description, f.description),
       maxScore := f.maxScore.value, dueDate := Overwrite(a.dueDate, f.dueDate))
  }

  /** A stored assignment is due after it was created, or has no due date, and
      its maximum score is within 1..1000; updating keeps the id, the course
      and the score bound, but may move the due date before any time. */
  lemma AssignmentBounds(id: Id, courseId: Id, f: AssignmentForm, now: Time, a: Assignment)
    requires ValidNewAssignment(f, now)
    ensures var n := NewAssignment(id, courseId, f);
      && n.courseId == courseId && n.id == id && 1 <= n.maxScore <= 1000
      && (n.dueDate.None? || n.dueDate.value > now)
    ensures var u := UpdatedAssignment(a, f);
      u.id == a.id && u.courseId == a.courseId && 1 <= u.maxScore <= 1000
  {
  }

  /** An illustration on one input, not a general property: a past due date
      is accepted by `update` and refused by `store`. */
  lemma PastDueDateExample()
    ensures var f := AssignmentForm(Filled("Essay"), Absent, Filled(10), Filled(5));
      ValidAssignmentUpdate(f) && !ValidNewAssignment(f, 100)
  {
  }

  /** The pages `create` and `edit` show. */
  datatype Form = Form(course: Course, assignment: Option<Assignment>)

  /** `create`: the form, for the course's own instructor. */
  function Create(courses: seq<Course>, enrollments: seq<Enrollment>, p: Principal, courseId: Id): (r: Page<Form>)
    ensures r.Shown? <==> p.SignedIn? && p.role == Instructor && Find(courses, CourseKey, courseId).Some?
                          && p.id == Find(courses, CourseKey, courseId).value.instructorId
  {
    var t := CourseTarget(courses, enrollments, p, courseId, true);
    var d := Decide(p, AssignmentsCreate, t);
    if d != Allow then Denied(d) else Shown(Form(t.course.value, None))
  }

  /** `edit`: the form for the route's assignment, found in the whole table. */
  function Edit(courses: seq<Course>, assignments: seq<Assignment>, enrollments: seq<Enrollment>, p: Principal,
                courseId: Id, assignmentId: Id): (r: Page<Form>)
    ensures r.Shown? <==> p.SignedIn? && p.role == Instructor && Find(courses, CourseKey, courseId).Some?
                          && Find(assignments, AssignmentKey, assignmentId).Some?
                          && p.id == Find(courses, CourseKey, courseId).value.instructorId
    ensures r.Shown? ==> r.page.assignment == Find(assignments, AssignmentKey, assignmentId)
  {
    var t := CourseTarget(courses, enrollments, p, courseId, Find(assignments, AssignmentKey, assignmentId).Some?);
    var d := Decide(p, AssignmentsEdit, t);
    if d != Allow then Denied(d) else Shown(Form(t.course.value, Find(assignments, AssignmentKey, assignmentId)))
  }

  /** `store`. */
  method Store(db: Db, p: Principal, courseId: Id, f: AssignmentForm, now: Time) returns (r: Response)
    requires db.Valid()
    modifies db`assignments, db`nextId
    ensures db.Valid()
    ensures var d := Decide(p, AssignmentsStore, CourseTarget(db.courses, db.enrollments, p, courseId, true));
      if d != Allow then r == Refused(d) && db.assignments == old(db.assignments) && db.nextId == old(db.nextId)
      else if !ValidNewAssignment(f, now) then
        r == Invalid && db.assignments == old(db.assignments) && db.nextId == old(db.nextId)
      else && r == Succeeded(Created)
           && db.nextId == old(db.nextId) + 1
           && db.assignments == old(db.assignments) + [NewAssignment(old(db.nextId), courseId, f)]
  {
    var d := Decide(p, AssignmentsStore, CourseTarget(db.courses, db.enrollments, p, courseId, true));
    if d != Allow {
      return Refused(d);
    }
    if !ValidNewAssignment(f, now) {
      return Invalid;
    }
    var id := db.NewId();
    var a := NewAssignment(id, courseId, f);
    InsertFresh(db.assignments, AssignmentKey, id, a);
    db.assignments := db.assignments + [a];
    r := Succeeded(Created);
  }

  /** `update`. */
  method Update(db: Db, p: Principal, courseId: Id, assignmentId: Id, f: AssignmentForm) returns (r: Response)
    requires db.Valid()
    modifies db`assignments
    ensures db.Valid()
    ensures var t := CourseTarget(db.courses, db.enrollments, p, courseId,
                                  Locate(old(db.assignments), AssignmentKey, assignmentId).Some?);
      var d := Decide(p, AssignmentsUpdate, t);
      if d != Allow then r == Refused(d) && db.assignments == old(db.assignments)
      else if !ValidAssignmentUpdate(f) then r == Invalid && db.assignments == old(db.assignments)
      else var i := Locate(old(db.assignments), AssignmentKey, assignmentId).value;
        && r == Succeeded(Updated)
        && db.assignments == old(db.assignments)[i := UpdatedAssignment(old(db.assignments)[i], f)]
  {
    var t := CourseTarget(db.courses, db.enrollments, p, courseId, Locate(db.assignments, AssignmentKey, assignmentId).Some?);
    var d := Decide(p, AssignmentsUpdate, t);
    if d != Allow {
      return Refused(d);
    }
    if !ValidAssignmentUpdate(f) {
      return Invalid;
    }
    var i := Locate(db.assignments, AssignmentKey, assignmentId).value;
    var a := UpdatedAssignment(db.assignments[i], f);
    ReplaceKeepsTable(db.assignments, AssignmentKey, db.nextId, i, a);
    db.assignments := db.assignments[i := a];
    r := Succeeded(Updated);
  }

  /** `destroy`: deletes the route's assignment; its submissions are not touched. */
  method Destroy(db: Db, p: Principal, courseId: Id, assignmentId: Id) returns (r: Response)
    requires db.Valid()
    modifies db`assignments
    ensures db.Valid()
    ensures var t := CourseTarget(db.courses, db.enrollments, p, courseId,
                                  Locate(old(db.assignments), AssignmentKey, assignmentId).Some?);
      var d := Decide(p, AssignmentsDestroy, t);
      if d != Allow then r == Refused(d) && db.assignments == old(db.assignments)
      else && r == Succeeded(Deleted)
           && db.assignments == RemoveAt(old(db.assignments), Locate(old(db.assignments), AssignmentKey, assignmentId).value)
           && Find(db.assignments, AssignmentKey, assignmentId).None?
  {
    var t := CourseTarget(db.courses, db.enrollments, p, courseId, Locate(db.assignments, AssignmentKey, assignmentId).Some?);
    var d := Decide(p, AssignmentsDestroy, t);
    if d != Allow {
      return Refused(d);
    }
    var i := Locate(db.assignments, AssignmentKey, assignmentId).value;
    RemoveKeepsTable(db.assignments, AssignmentKey, db.nextId, i);
    db.assignments := RemoveAt(db.assignments, i);
    r := Succeeded(Deleted);
  }

  /** What the assignment page shows: every submission to an instructor or an
      admin, and to a student only the student's own. */
  datatype AssignmentPage = AssignmentPage(
    course: Course,
    assignment: Assignment,
    submissions: Option<seq<Submission>>,
    studentSubmission: Option<Submission>)

  /** `show`. The submission list prints each submitter's name, so a listed
      submission whose student row is gone makes the page fail. */
  function Show(users: seq<User>, courses: seq<Course>, assignments: seq<Assignment>, submissions: seq<Submission>,
                enrollments: seq<Enrollment>, p: Principal, courseId: Id, assignmentId: Id): (r: Page<AssignmentPage>)
    ensures var t := CourseTarget(courses, enrollments, p, courseId, Find(assignments, AssignmentKey, assignmentId).Some?);
      && (r.Denied? <==> Decide(p, AssignmentsShow, t) != Allow)
      && (r.Denied? ==> r.decision == Decide(p, AssignmentsShow, t))
    ensures !r.Denied? ==>
              (r.Crashed? <==> p.role != Student
                               && exists s :: s in submissions && s.assignmentId == assignmentId
                                              && !UserExists(users, s.studentId))
    ensures r.Shown? ==> p.SignedIn? && Some(r.page.assignment) == Find(assignments, AssignmentKey, assignmentId)
    ensures r.Shown? ==> (r.page.submissions.Some? <==> p.role != Student)
    ensures r.Shown? ==> (r.page.studentSubmission.Some? ==> p.role == Student)
    ensures r.Shown? && r.page.submissions.Some? ==>
              forall j :: 0 <= j < |r.page.submissions.value| ==>
                r.page.submissions.value[j] in submissions && r.page.submissions.value[j].assignmentId == assignmentId
    ensures r.Shown? && r.page.submissions.Some? ==>
              forall j :: 0 <= j < |submissions| && submissions[j].assignmentId == assignmentId ==>
                submissions[j] in r.page.submissions.value
    ensures r.Shown? && p.role == Student ==>
              r.page.studentSubmission == Find(submissions, SubmissionPair, (assignmentId, p.id))
  {
    var t := CourseTarget(courses, enrollments, p, courseId, Find(assignments, AssignmentKey, assignmentId).Some?);
    var d := Decide(p, AssignmentsShow, t);
    if d != Allow then Denied(d)
    else
      AllowNeedsGuardAndCheck(p, AssignmentsShow, t);
      var a := Find(assignments, AssignmentKey, assignmentId).value;
      var listed := Where(submissions, ForAssignment(assignmentId));
      WhereMembers(submissions, ForAssignment(assignmentId));
      if p.role != Student && !(forall s :: s in listed ==> UserExists(users, s.studentId)) then Crashed
      else
        Shown(AssignmentPage(t.course.value, a,
                             if p.role != Student then Some(listed) else None,
                             if p.role == Student then Find(submissions, SubmissionPair, (assignmentId, p.id)) else None))
  }

  /** A student sees the page only when enrolled, and then sees no other
      student's submission. */
  lemma StudentSeesOwnSubmissionOnly(users: seq<User>, courses: seq<Course>, assignments: seq<Assignment>,
                                     submissions: seq<Submission>, enrollments: seq<Enrollment>, id: Id,
                                     courseId: Id, assignmentId: Id)
    requires Show(users, courses, assignments, submissions, enrollments, SignedIn(id, Student), courseId, assignmentId).Shown?
    ensures Enrollments.IsEnrolled(enrollments, id, courseId)
    ensures var page := Show(users, courses, assignments, submissions, enrollments, SignedIn(id, Student), courseId, assignmentId).page;
      page.submissions.None?
      && (page.studentSubmission.Some? ==> page.studentSubmission.value.studentId == id
                                           && page.studentSubmission.value.assignmentId == assignmentId)
  {
    var t := CourseTarget(courses, enrollments, SignedIn(id, Student), courseId,
                          Find(assignments, AssignmentKey, assignmentId).Some?);
    AllowNeedsGuardAndCheck(SignedIn(id, Student), AssignmentsShow, t);
  }
}
