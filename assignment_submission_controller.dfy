/** Submitting an assignment and grading a submission. */
module AssignmentSubmissionController {
  import opened Domain
  import opened Query
  import opened Routes
  import opened Authorization
  import opened Requests
  import opened Database
  import opened Validation
  import opened Submissions

  const AlreadySubmitted := "You have already submitted this assignment."
  const Submitted := "Assignment submitted successfully!"
  const GradedMessage := "Assignment graded successfully!"

  datatype SubmissionForm = SubmissionForm(text: Field<string>, attachment: Field<string>)

  /** `submission_text` of at least 10 characters, an optional attachment of
      at most 255. */
  predicate ValidSubmission(f: SubmissionForm) {
    RequiredStringAtLeast(f.text, 10) && NullableString(f.attachment, Some(255))
  }

  datatype GradeForm = GradeForm(grade: Field<real>, feedback: Field<string>)

  /** A grade from 0 to the route's assignment's maximum score, and optional
      feedback. */
  predicate ValidGrade(f: GradeForm, maxScore: int) {
    RequiredNumberBetween(f.grade, 0.0, maxScore as real) && NullableString(f.feedback, None)
  }

  /** The route binding of `submit`: the course and the assignment, which is
      looked up in the whole table. */
  function SubmitTarget(courses: seq<Course>, assignments: seq<Assignment>, enrollments: seq<Enrollment>,
                        p: Principal, courseId: Id, assignmentId: Id): Target
  {
    CourseTarget(courses, enrollments, p, courseId, Find(assignments, AssignmentKey, assignmentId).Some?)
  }

  /** `store`: the checks in order are the role, the enrollment, an existing
      submission, the form; only then a new, ungraded submission is inserted. */
  method Store(db: Db, p: Principal, courseId: Id, assignmentId: Id, f: SubmissionForm, now: Time)
    returns (r: Response)
    requires db.Valid()
    modifies db`submissions, db`nextId
    ensures db.Valid()
    ensures var d := Decide(p, SubmissionsStore, SubmitTarget(db.courses, db.assignments, db.enrollments, p, courseId, assignmentId));
      if d != Allow then r == Refused(d) && db.submissions == old(db.submissions) && db.nextId == old(db.nextId)
      else if SubmissionOf(old(db.submissions), assignmentId, p.id).Some? then
        r == Failed(AlreadySubmitted) && db.submissions == old(db.submissions) && db.nextId == old(db.nextId)
      else if !ValidSubmission(f) then
        r == Invalid && db.submissions == old(db.submissions) && db.nextId == old(db.nextId)
      else && r == Succeeded(Submitted)
           && db.nextId == old(db.nextId) + 1
           && db.submissions == old(db.submissions)
                + [NewSubmission(old(db.nextId), assignmentId, p.id, f.text.value, NullableValue(f.attachment), now)]
  {
    var d := Decide(p, SubmissionsStore, SubmitTarget(db.courses, db.assignments, db.enrollments, p, courseId, assignmentId));
    if d != Allow {
      return Refused(d);
    }
    var found := SubmissionOf(db.submissions, assignmentId, p.id);
    if found.Some? {
      return Failed(AlreadySubmitted);
    }
    if !ValidSubmission(f) {
      return Invalid;
    }
    var id := db.NewId();
    var s := NewSubmission(id, assignmentId, p.id, f.text.value, NullableValue(f.attachment), now);
    InsertFresh(db.submissions, SubmissionKey, id, s);
    SubmitAddsThePair(db.submissions, s);
    db.submissions := db.submissions + [s];
    r := Succeeded(Submitted);
  }

  /** After a first submission the pair is found, so a second `store` by the
      same student for the same assignment takes the error branch; the table
      holds one row for the pair, ungraded and stamped with the request's time. */
  lemma SecondSubmitFails(rows: seq<Submission>, id: Id, a: Id, s: Id, text: string, attachment: Option<string>, now: Time)
    requires UniqueBy(rows, SubmissionPair)
    requires SubmissionOf(rows, a, s).None?
    ensures var after := rows + [NewSubmission(id, a, s, text, attachment, now)];
      && SubmissionOf(after, a, s) == Some(|rows|)
      && Count(after, HasKey(SubmissionPair, (a, s))) == 1
      && after[|rows|].grade.None? && after[|rows|].submittedAt == now
  {
    SubmitAddsThePair(rows, NewSubmission(id, a, s, text, attachment, now));
  }

  /** The route binding of grading: the course, the assignment and the
      submission are each looked up in their whole table; nothing checks that
      the submission belongs to the assignment or the assignment to the course. */
  function GradeTarget(courses: seq<Course>, assignments: seq<Assignment>, submissions: seq<Submission>,
                       enrollments: seq<Enrollment>, p: Principal, courseId: Id, assignmentId: Id,
                       submissionId: Id): Target
  {
    CourseTarget(courses, enrollments, p, courseId,
                 Find(assignments, AssignmentKey, assignmentId).Some? && Find(submissions, SubmissionKey, submissionId).Some?)
  }

  /** `update`: grades the route's submission against the route's
      assignment's maximum score. */
  method Update(db: Db, p: Principal, courseId: Id, assignmentId: Id, submissionId: Id, f: GradeForm, now: Time)
    returns (r: Response)
    requires db.Valid()
    modifies db`submissions
    ensures db.Valid()
    ensures var t := GradeTarget(db.courses, db.assignments, old(db.submissions), db.enrollments, p, courseId,
                                 assignmentId, submissionId);
      var d := Decide(p, SubmissionsUpdate, t);
      if d != Allow then r == Refused(d) && db.submissions == old(db.submissions)
      else if !ValidGrade(f, Find(db.assignments, AssignmentKey, assignmentId).value.maxScore) then
        r == Invalid && db.submissions == old(db.submissions)
      else var i := Locate(old(db.submissions), SubmissionKey, submissionId).value;
        && r == Succeeded(GradedMessage)
        && db.submissions == old(db.submissions)[i := Graded(old(db.submissions)[i], f.grade.value,
                                                            NullableValue(f.feedback), p.id, now)]
  {
    var t := GradeTarget(db.courses, db.assignments, db.submissions, db.enrollments, p, courseId, assignmentId, submissionId);
    var d := Decide(p, SubmissionsUpdate, t);
    if d != Allow {
      return Refused(d);
    }
    AllowNeedsGuardAndCheck(p, SubmissionsUpdate, t);
    if !ValidGrade(f, Find(db.assignments, AssignmentKey, assignmentId).value.maxScore) {
      return Invalid;
    }
    var i := Locate(db.submissions, SubmissionKey, submissionId).value;
    var g := Graded(db.submissions[i], f.grade.value, NullableValue(f.feedback), p.id, now);
    GradeKeepsKeys(db.submissions, i, f.grade.value, NullableValue(f.feedback), p.id, now);
    db.submissions := db.submissions[i := g];
    r := Succeeded(GradedMessage);
  }

  /** A recorded grade lies between 0 and the route's assignment's maximum
      score, and names its grader. */
  lemma GradeWithinMaximum(sub: Submission, f: GradeForm, maxScore: int, grader: Id, at: Time)
    requires ValidGrade(f, maxScore)
    ensures var g := Graded(sub, f.grade.value, NullableValue(f.feedback), grader, at);
      && g.grade.Some? && 0.0 <= g.grade.value <= maxScore as real
      && g.gradedBy == Some(grader) && g.gradedAt == Some(at)
      && (f.feedback.Filled? <==> g.feedback.Some?)
  {
  }

  /** The grading route is not scoped: the owner of course 1 may grade a
      submission to an assignment of course 2, which is not theirs. */
  lemma ForeignSubmissionIsGradable()
    ensures var courses := [Course(1, 5, "Mine", None, None, true)];
      var assignments := [Assignment(3, 2, "Essay", None, 10, None)];
      var submissions := [NewSubmission(4, 3, 7, "my essay", None, 0)];
      && Decide(SignedIn(5, Instructor), SubmissionsUpdate,
                GradeTarget(courses, assignments, submissions, [], SignedIn(5, Instructor), 1, 3, 4)) == Allow
      && Find(assignments, AssignmentKey, 3).value.courseId != 1
  {
    var courses := [Course(1, 5, "Mine", None, None, true)];
    var assignments := [Assignment(3, 2, "Essay", None, 10, None)];
    var submissions := [NewSubmission(4, 3, 7, "my essay", None, 0)];
    assert Find(courses, CourseKey, 1) == Some(courses[0]);
    assert Find(assignments, AssignmentKey, 3) == Some(assignments[0]);
    assert Find(submissions, SubmissionKey, 4).Some?;
    GradeAccess(5, Instructor, GradeTarget(courses, assignments, submissions, [], SignedIn(5, Instructor), 1, 3, 4));
  }
}
