/** The enrollment table as the code keeps it: a row per (student, course)
    pair, made unique by looking the pair up before every insert, and removed
    by looking it up before every delete. Both the student's own routes and the
    admin's routes go through these operations. */
module Enrollments {
  import opened Domain
  import opened Query

  /** `Enrollment::where('student_id', s)->where('course_id', c)->first()`. */
  function EnrollmentOf(rows: seq<Enrollment>, s: Id, c: Id): (r: Option<nat>)
    ensures r.Some? ==> r.value < |rows| && rows[r.value].studentId == s && rows[r.value].courseId == c
    ensures r.Some? ==> forall e :: e in rows[..r.value] ==> !(e.studentId == s && e.courseId == c)
    ensures r.None? <==> forall j :: 0 <= j < |rows| ==> !(rows[j].studentId == s && rows[j].courseId == c)
  {
    LocateIsFirst(rows, EnrollmentPair, (s, c));
    Locate(rows, EnrollmentPair, (s, c))
  }

  predicate IsEnrolled(rows: seq<Enrollment>, s: Id, c: Id) {
    EnrollmentOf(rows, s, c).Some?
  }

  /** The row a successful enroll inserts. */
  function NewEnrollment(s: Id, c: Id, now: Time): Enrollment {
    Enrollment(s, c, now)
  }

  /** Enrolling a pair that is not enrolled yet: the pair is then enrolled in
      exactly one row, every other pair keeps its state, and pairs stay unique. */
  lemma {:induction false} EnrollAddsThePair(rows: seq<Enrollment>, s: Id, c: Id, now: Time)
    requires UniqueBy(rows, EnrollmentPair)
    requires !IsEnrolled(rows, s, c)
    ensures UniqueBy(rows + [NewEnrollment(s, c, now)], EnrollmentPair)
    ensures IsEnrolled(rows + [NewEnrollment(s, c, now)], s, c)
    ensures Count(rows + [NewEnrollment(s, c, now)], HasKey(EnrollmentPair, (s, c))) == 1
    ensures forall s': Id, c': Id :: (s', c') != (s, c) ==>
              (IsEnrolled(rows + [NewEnrollment(s, c, now)], s', c') <==> IsEnrolled(rows, s', c'))
  {
    var e := NewEnrollment(s, c, now);
    var r := rows + [e];
    AppendKeepsUnique(rows, EnrollmentPair, e);
    assert r[|rows|] == e;
    UniqueCountKey(r, EnrollmentPair, (s, c));
    forall s': Id, c': Id | (s', c') != (s, c)
      ensures IsEnrolled(r, s', c') <==> IsEnrolled(rows, s', c')
    {
      if IsEnrolled(rows, s', c') {
        var j := EnrollmentOf(rows, s', c').value;
        assert r[j] == rows[j];
      }
      if IsEnrolled(r, s', c') {
        var j := EnrollmentOf(r, s', c').value;
        assert j < |rows| && r[j] == rows[j];
      }
    }
  }

  /** Unenrolling an enrolled pair deletes its one row: the pair is no longer
      enrolled, every other pair keeps its state, and pairs stay unique. */
  lemma UnenrollRemovesThePair(rows: seq<Enrollment>, s: Id, c: Id)
    requires UniqueBy(rows, EnrollmentPair)
    requires IsEnrolled(rows, s, c)
    ensures UniqueBy(RemoveAt(rows, EnrollmentOf(rows, s, c).value), EnrollmentPair)
    ensures !IsEnrolled(RemoveAt(rows, EnrollmentOf(rows, s, c).value), s, c)
    ensures forall s': Id, c': Id :: (s', c') != (s, c) ==>
              (IsEnrolled(RemoveAt(rows, EnrollmentOf(rows, s, c).value), s', c') <==> IsEnrolled(rows, s', c'))
  {
    var i := EnrollmentOf(rows, s, c).value;
    RemoveAtKeys(rows, EnrollmentPair, i);
  }

  /** Enrolling and then unenrolling the same pair gives the table back. */
  lemma EnrollThenUnenroll(rows: seq<Enrollment>, s: Id, c: Id, now: Time)
    requires !IsEnrolled(rows, s, c)
    ensures IsEnrolled(rows + [NewEnrollment(s, c, now)], s, c)
    ensures RemoveAt(rows + [NewEnrollment(s, c, now)],
                     EnrollmentOf(rows + [NewEnrollment(s, c, now)], s, c).value) == rows
  {
    var r := rows + [NewEnrollment(s, c, now)];
    assert r[|rows|] == NewEnrollment(s, c, now);
    var i := EnrollmentOf(r, s, c).value;
    assert RemoveAt(r, i) == rows;
  }
}
