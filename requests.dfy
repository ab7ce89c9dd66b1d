/** What a request's route parameters resolve to in the database: the bound
    course and student, the principal's enrollment in the course, and whether
    the other bound models exist. Bindings look ids up in the whole table;
    they are not scoped to the route's course. */
module Requests {
  import opened Domain
  import opened Query
  import opened Authorization
  import opened Enrollments

  /** A route with a `{course}` parameter (and possibly more bound models). */
  function CourseTarget(courses: seq<Course>, enrollments: seq<Enrollment>, p: Principal, courseId: Id,
                        othersFound: bool): (t: Target)
    ensures t.course == Find(courses, CourseKey, courseId)
    ensures t.enrolled <==> p.SignedIn? && IsEnrolled(enrollments, p.id, courseId)
    ensures t.member.None? && t.othersFound == othersFound
  {
    Target(Find(courses, CourseKey, courseId), None,
           p.SignedIn? && IsEnrolled(enrollments, p.id, courseId), othersFound)
  }

  /** What a `{course}` route binds, in terms of the tables: the course is
      found exactly when a row has the route's id, and is then such a row; the
      principal counts as enrolled exactly when signed in and paired with that
      course by an enrollment row; no student is bound. */
  lemma CourseTargetBinding(courses: seq<Course>, enrollments: seq<Enrollment>, p: Principal, courseId: Id,
                            othersFound: bool)
    ensures var t := CourseTarget(courses, enrollments, p, courseId, othersFound);
      && (t.course.Some? <==> exists c :: c in courses && c.id == courseId)
      && (t.course.Some? ==> t.course.value in courses && t.course.value.id == courseId)
      && (t.enrolled <==> p.SignedIn? && exists e :: e in enrollments && e.studentId == p.id && e.courseId == courseId)
      && t.member.None? && t.othersFound == othersFound
  {
  }

  /** An admin route with a `{student}` parameter, and a `{course}` one for
      unenrolling. */
  function MemberTarget(users: seq<User>, courses: seq<Course>, studentId: Id, courseId: Option<Id>): Target {
    Target(if courseId.Some? then Find(courses, CourseKey, courseId.value) else None,
           Find(users, UserKey, studentId), false, true)
  }

  /** `belongsTo(User::class)`: the related user row exists. A view that
      prints a field of a missing related user fails. */
  predicate UserExists(users: seq<User>, id: Id) {
    Find(users, UserKey, id).Some?
  }

  /** A route without bound models. */
  const NoTarget := Target(None, None, false, true)
}
