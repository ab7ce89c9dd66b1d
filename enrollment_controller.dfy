/** A student's own enrollments: the list with progress cards, enrolling in a
    course and leaving it. */
module EnrollmentController {
  import opened Domain
  import opened Query
  import opened Routes
  import opened Authorization
  import opened Requests
  import opened Database
  import opened Enrollments
  import opened CourseCards

  const AlreadyEnrolled := "You are already enrolled in this course."
  const Enrolled := "Successfully enrolled in the course!"
  const Unenrolled := "Successfully unenrolled from the course."
  const NotFoundMessage := "Enrollment not found."

  /** `index`: a card per enrollment row of the signed-in student. */
  function Index(courses: seq<Course>, lessons: seq<Lesson>, enrollments: seq<Enrollment>, progress: seq<Progress>,
                 p: Principal): (r: Page<seq<Card>>)
    ensures r.Denied? <==> !(p.SignedIn? && p.role == Student)
    ensures !r.Denied? ==> p.SignedIn?
    ensures !r.Denied? ==> (r.Crashed? <==> Cards(EnrollmentsOf(enrollments, p.id), courses, lessons, progress, p.id).None?)
    ensures r.Shown? ==> Some(r.page) == Cards(EnrollmentsOf(enrollments, p.id), courses, lessons, progress, p.id)
  {
    var d := Decide(p, EnrollmentsIndex, NoTarget);
    if d != Allow then Denied(d)
    else match Cards(EnrollmentsOf(enrollments, p.id), courses, lessons, progress, p.id)
      case None => Crashed
      case Some(cards) => Shown(cards)
  }

  /** `store`: enroll the signed-in student in the route's course, published
      or not, unless already enrolled. */
  method Store(db: Db, p: Principal, courseId: Id, now: Time) returns (r: Response)
    requires db.Valid()
    modifies db`enrollments
    ensures db.Valid()
    ensures var d := Decide(p, EnrollmentsStore, CourseTarget(db.courses, old(db.enrollments), p, courseId, true));
      if d != Allow then r == Refused(d) && db.enrollments == old(db.enrollments)
      else if IsEnrolled(old(db.enrollments), p.id, courseId) then
        r == Failed(AlreadyEnrolled) && db.enrollments == old(db.enrollments)
      else && r == Succeeded(Enrolled)
           && db.enrollments == old(db.enrollments) + [NewEnrollment(p.id, courseId, now)]
  {
    var d := Decide(p, EnrollmentsStore, CourseTarget(db.courses, db.enrollments, p, courseId, true));
    if d != Allow {
      return Refused(d);
    }
    if IsEnrolled(db.enrollments, p.id, courseId) {
      return Failed(AlreadyEnrolled);
    }
    EnrollAddsThePair(db.enrollments, p.id, courseId, now);
    db.enrollments := db.enrollments + [NewEnrollment(p.id, courseId, now)];
    r := Succeeded(Enrolled);
  }

  /** `destroy`: delete the signed-in student's row for the route's course. */
  method Destroy(db: Db, p: Principal, courseId: Id) returns (r: Response)
    requires db.Valid()
    modifies db`enrollments
    ensures db.Valid()
    ensures var d := Decide(p, EnrollmentsDestroy, CourseTarget(db.courses, old(db.enrollments), p, courseId, true));
      if d != Allow then r == Refused(d) && db.enrollments == old(db.enrollments)
      else if !IsEnrolled(old(db.enrollments), p.id, courseId) then
        r == Failed(NotFoundMessage) && db.enrollments == old(db.enrollments)
      else && r == Succeeded(Unenrolled)
           && db.enrollments == RemoveAt(old(db.enrollments), EnrollmentOf(old(db.enrollments), p.id, courseId).value)
           && !IsEnrolled(db.enrollments, p.id, courseId)
  {
    var d := Decide(p, EnrollmentsDestroy, CourseTarget(db.courses, db.enrollments, p, courseId, true));
    if d != Allow {
      return Refused(d);
    }
    var e := EnrollmentOf(db.enrollments, p.id, courseId);
    if e.None? {
      return Failed(NotFoundMessage);
    }
    UnenrollRemovesThePair(db.enrollments, p.id, courseId);
    db.enrollments := RemoveAt(db.enrollments, e.value);
    r := Succeeded(Unenrolled);
  }
}
