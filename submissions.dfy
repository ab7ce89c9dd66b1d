/** The submission table: one submission per (assignment, student), made
    unique by looking the pair up before inserting, and graded in place. */
module Submissions {
  import opened Domain
  import opened Query

  /** `AssignmentSubmission::where('assignment_id', a)->where('student_id', s)->first()`. */
  function SubmissionOf(rows: seq<Submission>, a: Id, s: Id): (r: Option<nat>)
    ensures r.Some? ==> r.value < |rows| && rows[r.value].assignmentId == a && rows[r.value].studentId == s
    ensures r.Some? ==> forall e :: e in rows[..r.value] ==> !(e.assignmentId == a && e.studentId == s)
    ensures r.None? <==> forall j :: 0 <= j < |rows| ==> !(rows[j].assignmentId == a && rows[j].studentId == s)
  {
    LocateIsFirst(rows, SubmissionPair, (a, s));
    Locate(rows, SubmissionPair, (a, s))
  }

  /** The row a submit inserts: ungraded, stamped with the time of the request. */
  function NewSubmission(id: Id, a: Id, s: Id, text: string, attachment: Option<string>, now: Time): Submission {
    Submission(id, a, s, text, attachment, now, None, None, None, None)
  }

  /** What grading writes: the grade, the feedback, who graded and when. */
  function Graded(sub: Submission, grade: real, feedback: Option<string>, grader: Id, at: Time): Submission {
    sub.(grade := Some(grade), feedback := feedback, gradedBy := Some(grader), gradedAt := Some(at))
  }

  /** A submission is inserted only when its pair is new, so at most one
      submission exists per (assignment, student), and afterwards exactly one. */
  lemma {:induction false} SubmitAddsThePair(rows: seq<Submission>, v: Submission)
    requires UniqueBy(rows, SubmissionPair)
    requires SubmissionOf(rows, v.assignmentId, v.studentId).None?
    ensures UniqueBy(rows + [v], SubmissionPair)
    ensures SubmissionOf(rows + [v], v.assignmentId, v.studentId) == Some(|rows|)
    ensures Count(rows + [v], HasKey(SubmissionPair, SubmissionPair(v))) == 1
  {
    AppendKeepsUnique(rows, SubmissionPair, v);
    UniqueLocate(rows + [v], SubmissionPair, |rows|);
    UniqueCountKey(rows + [v], SubmissionPair, SubmissionPair(v));
  }

  /** Grading changes only the grading columns: the work, its author, its
      assignment and its id stay. */
  lemma GradingKeepsTheWork(sub: Submission, grade: real, feedback: Option<string>, grader: Id, at: Time)
    ensures var g := Graded(sub, grade, feedback, grader, at);
      && g.id == sub.id && g.assignmentId == sub.assignmentId && g.studentId == sub.studentId
      && g.text == sub.text && g.attachment == sub.attachment && g.submittedAt == sub.submittedAt
      && g.grade == Some(grade) && g.feedback == feedback && g.gradedBy == Some(grader) && g.gradedAt == Some(at)
  {
  }

  /** Re-grading overwrites: the second grading alone decides the result. */
  lemma RegradeOverwrites(sub: Submission, g1: real, f1: Option<string>, b1: Id, t1: Time,
                          g2: real, f2: Option<string>, b2: Id, t2: Time)
    ensures Graded(Graded(sub, g1, f1, b1, t1), g2, f2, b2, t2) == Graded(sub, g2, f2, b2, t2)
  {
  }

  /** Grading a row in place keeps both the ids and the pairs unique. */
  lemma GradeKeepsKeys(rows: seq<Submission>, i: nat, grade: real, feedback: Option<string>, grader: Id, at: Time)
    requires i < |rows|
    requires UniqueBy(rows, SubmissionKey) && UniqueBy(rows, SubmissionPair)
    ensures UniqueBy(rows[i := Graded(rows[i], grade, feedback, grader, at)], SubmissionKey)
    ensures UniqueBy(rows[i := Graded(rows[i], grade, feedback, grader, at)], SubmissionPair)
  {
    var v := Graded(rows[i], grade, feedback, grader, at);
    ReplaceKeepsUnique(rows, SubmissionKey, i, v);
    ReplaceKeepsUnique(rows, SubmissionPair, i, v);
  }
}
