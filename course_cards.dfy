/** The enrolled-course cards three pages show (the student dashboard, the
    student's enrollment list and the admin's student page): one card per
    enrollment row, with the course and the student's progress in it. */
module CourseCards {
  import opened Domain
  import opened Query
  import opened CourseProgress

  /** One card: the course and the completed/total/percentage figures. */
  datatype Card = Card(course: Course, stats: Stats)

  function OfStudent(s: Id): Enrollment -> bool {
    (e: Enrollment) => e.studentId == s
  }

  function EnrolledCourse(e: Enrollment): Id { e.courseId }

  /** `Enrollment::where('student_id', s)->get()`. */
  function EnrollmentsOf(enrollments: seq<Enrollment>, s: Id): seq<Enrollment> {
    Where(enrollments, OfStudent(s))
  }

  /** The card of one enrollment row, or None when its course row no longer
      exists. */
  function CardOf(courses: seq<Course>, lessons: seq<Lesson>, progress: seq<Progress>, s: Id, e: Enrollment)
    : (r: Option<Card>)
    ensures r.None? <==> Find(courses, CourseKey, e.courseId).None?
    ensures r.Some? ==> && Some(r.value.course) == Find(courses, CourseKey, e.courseId)
                        && r.value.stats == CourseStats(progress, lessons, s, e.courseId)
  {
    match Find(courses, CourseKey, e.courseId)
    case None => None
    case Some(c) => Some(Card(c, CourseStats(progress, lessons, s, e.courseId)))
  }

  /** The cards for `rows`, whose progress figures are those of student `s`.
      An enrollment whose course row no longer exists makes the page fail
      (None): the view reads a property of the missing course. */
  function Cards(rows: seq<Enrollment>, courses: seq<Course>, lessons: seq<Lesson>, progress: seq<Progress>,
                 s: Id): (r: Option<seq<Card>>)
    ensures r.Some? <==> forall j :: 0 <= j < |rows| ==> CardOf(courses, lessons, progress, s, rows[j]).Some?
    ensures r.Some? ==> |r.value| == |rows|
    ensures r.Some? ==> forall j :: 0 <= j < |rows| ==> Some(r.value[j]) == CardOf(courses, lessons, progress, s, rows[j])
  {
    MapAll(rows, (e: Enrollment) => CardOf(courses, lessons, progress, s, e))
  }

  /** Every card of the student shows at most 100 and no more completed lessons
      than the course has, nor more than the student's overall figure. */
  lemma CardsBounded(rows: seq<Enrollment>, courses: seq<Course>, lessons: seq<Lesson>, progress: seq<Progress>, s: Id)
    requires UniqueBy(progress, ProgressPair)
    requires Cards(rows, courses, lessons, progress, s).Some?
    ensures var cards := Cards(rows, courses, lessons, progress, s).value;
      forall j :: 0 <= j < |cards| ==>
        && cards[j].stats.percent <= 100
        && cards[j].stats.completed <= cards[j].stats.total
        && cards[j].stats.completed <= CompletedLessons(progress, s)
  {
    var cards := Cards(rows, courses, lessons, progress, s).value;
    forall j | 0 <= j < |cards|
      ensures && cards[j].stats.percent <= 100
              && cards[j].stats.completed <= cards[j].stats.total
              && cards[j].stats.completed <= CompletedLessons(progress, s)
    {
      StatsBounded(progress, lessons, s, rows[j].courseId);
    }
  }

  /** A student's enrollment rows name distinct courses, so the cards do too. */
  lemma CardsNameDistinctCourses(enrollments: seq<Enrollment>, s: Id)
    requires UniqueBy(enrollments, EnrollmentPair)
    ensures UniqueBy(EnrollmentsOf(enrollments, s), EnrolledCourse)
    ensures forall j :: 0 <= j < |EnrollmentsOf(enrollments, s)| ==> EnrollmentsOf(enrollments, s)[j].studentId == s
  {
    WhereKeepsUnique(enrollments, OfStudent(s), EnrollmentPair);
    var w := EnrollmentsOf(enrollments, s);
    forall i, j | 0 <= i < j < |w| ensures EnrolledCourse(w[i]) != EnrolledCourse(w[j]) {
      assert EnrollmentPair(w[i]) != EnrollmentPair(w[j]);
      assert OfStudent(s)(w[i]) && OfStudent(s)(w[j]);
    }
  }
}
