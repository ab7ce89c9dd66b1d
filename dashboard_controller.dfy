/** The dashboard: an instructor sees the own courses and the number of
    distinct students in them; every other role sees the student dashboard. */
module DashboardController {
  import opened Domain
  import opened Query
  import opened Routes
  import opened Authorization
  import opened Requests
  import opened Lessons
  import opened CourseProgress
  import opened CourseCards
  import CourseController
  import EnrollmentController

  /** `withCount('enrollments')`: the enrollment rows of course `c`. */
  function EnrollmentIn(c: Id): Enrollment -> bool {
    (e: Enrollment) => e.courseId == c
  }

  /** `whereIn('course_id', ids)`. */
  function EnrollmentInAny(ids: seq<Id>): Enrollment -> bool {
    (e: Enrollment) => e.courseId in ids
  }

  function EnrolledStudent(e: Enrollment): Id { e.studentId }

  /** One course card of the instructor dashboard. */
  datatype CourseSummary = CourseSummary(course: Course, lessonsCount: nat, enrollmentsCount: nat)

  function Summaries(own: seq<Course>, lessons: seq<Lesson>, enrollments: seq<Enrollment>): (r: seq<CourseSummary>)
    ensures |r| == |own|
    ensures forall j :: 0 <= j < |own| ==>
              && r[j].course == own[j]
              && r[j].lessonsCount == |CourseLessons(lessons, own[j].id)|
              && r[j].enrollmentsCount == Count(enrollments, EnrollmentIn(own[j].id))
  {
    if |own| == 0 then []
    else [CourseSummary(own[0], |CourseLessons(lessons, own[0].id)|, Count(enrollments, EnrollmentIn(own[0].id)))]
         + Summaries(own[1..], lessons, enrollments)
  }

  /** The instructor's own courses, as `Course::where('instructor_id', ...)`. */
  function OwnCourses(courses: seq<Course>, i: Id): seq<Course> {
    Where(courses, CourseController.OwnedBy(i))
  }

  /** `whereIn('course_id', $courses->pluck('id'))->distinct('student_id')->count()`. */
  function TotalStudents(courses: seq<Course>, enrollments: seq<Enrollment>, i: Id): nat {
    |Keys(Where(enrollments, EnrollmentInAny(Pluck(OwnCourses(courses, i), CourseKey))), EnrolledStudent)|
  }

  /** Course `cid` is a course of instructor `i`. */
  ghost predicate Teaches(courses: seq<Course>, i: Id, cid: Id) {
    exists c :: c in courses && c.id == cid && c.instructorId == i
  }

  /** The students an instructor teaches, defined directly: the students of
      the enrollment rows whose course is owned by the instructor. */
  ghost function StudentsTaughtBy(courses: seq<Course>, enrollments: seq<Enrollment>, i: Id): set<Id> {
    set e | e in enrollments && Teaches(courses, i, e.courseId) :: e.studentId
  }

  /** The plucked ids of the own courses are exactly the courses taught. */
  lemma OwnCourseIds(courses: seq<Course>, i: Id, cid: Id)
    ensures cid in Pluck(OwnCourses(courses, i), CourseKey) <==> Teaches(courses, i, cid)
  {
    var own := OwnCourses(courses, i);
    var ids := Pluck(own, CourseKey);
    if cid in ids {
      var j :| 0 <= j < |ids| && ids[j] == cid;
      assert own[j] in courses && own[j].id == cid && own[j].instructorId == i;
    }
    if Teaches(courses, i, cid) {
      var c :| c in courses && c.id == cid && c.instructorId == i;
      WhereMembership(courses, CourseController.OwnedBy(i), c);
      var j :| 0 <= j < |own| && own[j] == c;
      assert ids[j] == cid;
    }
  }

  /** The distinct count the dashboard shows is the number of students taught. */
  lemma TotalStudentsAreStudentsTaught(courses: seq<Course>, enrollments: seq<Enrollment>, i: Id)
    ensures TotalStudents(courses, enrollments, i) == |StudentsTaughtBy(courses, enrollments, i)|
  {
    var ids := Pluck(OwnCourses(courses, i), CourseKey);
    var taught := StudentsTaughtBy(courses, enrollments, i);
    var keys := Keys(Where(enrollments, EnrollmentInAny(ids)), EnrolledStudent);
    forall s | s in keys ensures s in taught {
      KeysOfWhere(enrollments, EnrollmentInAny(ids), EnrolledStudent, s);
      var e :| e in enrollments && EnrollmentInAny(ids)(e) && EnrolledStudent(e) == s;
      OwnCourseIds(courses, i, e.courseId);
    }
    forall s | s in taught ensures s in keys {
      var e :| e in enrollments && Teaches(courses, i, e.courseId) && e.studentId == s;
      OwnCourseIds(courses, i, e.courseId);
      KeysOfWhere(enrollments, EnrollmentInAny(ids), EnrolledStudent, s);
    }
    assert keys == taught;
  }

  datatype Dashboard =
    | InstructorDashboard(courses: seq<CourseSummary>, totalStudents: nat, publishedCount: nat)
    | StudentDashboard(enrollmentsCount: nat, completedLessons: nat, cards: seq<Card>)

  /** `index`: the branch is on the role alone; an admin gets the student
      dashboard, built from the admin's own (usually absent) enrollments. */
  function Index(courses: seq<Course>, lessons: seq<Lesson>, enrollments: seq<Enrollment>, progress: seq<Progress>,
                 p: Principal): (r: Page<Dashboard>)
    ensures r.Denied? <==> p.Guest?
    ensures r.Denied? ==> r.decision == RedirectToLogin
    ensures !r.Denied? && p.role == Instructor ==>
              && r.Shown? && r.page.InstructorDashboard?
              && (forall j :: 0 <= j < |r.page.courses| ==>
                    r.page.courses[j].course in courses && r.page.courses[j].course.instructorId == p.id)
              && (forall j :: 0 <= j < |courses| && courses[j].instructorId == p.id ==>
                    exists k :: 0 <= k < |r.page.courses| && r.page.courses[k].course == courses[j])
              && r.page.courses == Summaries(OwnCourses(courses, p.id), lessons, enrollments)
              && r.page.totalStudents == |StudentsTaughtBy(courses, enrollments, p.id)|
              && r.page.publishedCount == Count(OwnCourses(courses, p.id), CourseController.IsPublished())
    ensures !r.Denied? && p.role != Instructor ==>
              (r.Crashed? <==> Cards(EnrollmentsOf(enrollments, p.id), courses, lessons, progress, p.id).None?)
    ensures r.Shown? && p.role != Instructor ==>
              && r.page.StudentDashboard?
              && r.page.enrollmentsCount == Count(enrollments, OfStudent(p.id)) == |r.page.cards|
              && r.page.completedLessons == CompletedLessons(progress, p.id)
              && Some(r.page.cards) == Cards(EnrollmentsOf(enrollments, p.id), courses, lessons, progress, p.id)
  {
    var d := Decide(p, Routes.Dashboard, NoTarget);
    if d != Allow then Denied(d)
    else if p.role == Instructor then
      var own := OwnCourses(courses, p.id);
      TotalStudentsAreStudentsTaught(courses, enrollments, p.id);
      assert forall j :: 0 <= j < |courses| && courses[j].instructorId == p.id ==> courses[j] in own;
      Shown(InstructorDashboard(Summaries(own, lessons, enrollments), TotalStudents(courses, enrollments, p.id),
                                Count(own, CourseController.IsPublished())))
    else
      var rows := EnrollmentsOf(enrollments, p.id);
      match Cards(rows, courses, lessons, progress, p.id)
      case None => Crashed
      case Some(cards) => Shown(StudentDashboard(|rows|, CompletedLessons(progress, p.id), cards))
  }

  /** Under unique (student, course) pairs no course of the instructor has
      more enrollments than the instructor has distinct students. */
  lemma CourseEnrollmentsWithinTotal(courses: seq<Course>, lessons: seq<Lesson>, enrollments: seq<Enrollment>,
                                     i: Id, j: nat)
    requires UniqueBy(enrollments, EnrollmentPair)
    requires j < |OwnCourses(courses, i)|
    ensures Summaries(OwnCourses(courses, i), lessons, enrollments)[j].enrollmentsCount
            <= TotalStudents(courses, enrollments, i)
  {
    var own := OwnCourses(courses, i);
    var c := own[j].id;
    var ids := Pluck(own, CourseKey);
    var mine := Where(enrollments, EnrollmentIn(c));
    var all := Where(enrollments, EnrollmentInAny(ids));
    WhereKeepsUnique(enrollments, EnrollmentIn(c), EnrollmentPair);
    assert UniqueBy(mine, EnrolledStudent) by {
      forall a, b | 0 <= a < b < |mine| ensures EnrolledStudent(mine[a]) != EnrolledStudent(mine[b]) {
        assert EnrollmentPair(mine[a]) != EnrollmentPair(mine[b]);
        assert EnrollmentIn(c)(mine[a]) && EnrollmentIn(c)(mine[b]);
      }
    }
    UniqueKeysCount(mine, EnrolledStudent);
    assert Keys(mine, EnrolledStudent) <= Keys(all, EnrolledStudent) by {
      forall s | s in Keys(mine, EnrolledStudent) ensures s in Keys(all, EnrolledStudent) {
        KeysOfWhere(enrollments, EnrollmentIn(c), EnrolledStudent, s);
        assert ids[j] == c;
        KeysOfWhere(enrollments, EnrollmentInAny(ids), EnrolledStudent, s);
      }
    }
    SubsetCardinality(Keys(mine, EnrolledStudent), Keys(all, EnrolledStudent));
  }

  /** The student dashboard shows the same cards as the student's enrollment
      list, and its overall completed figure bounds every card's. */
  lemma StudentDashboardMatchesEnrollmentList(courses: seq<Course>, lessons: seq<Lesson>, enrollments: seq<Enrollment>,
                                              progress: seq<Progress>, s: Id)
    requires UniqueBy(progress, ProgressPair)
    requires Index(courses, lessons, enrollments, progress, SignedIn(s, Student)).Shown?
    ensures EnrollmentController.Index(courses, lessons, enrollments, progress, SignedIn(s, Student)).Shown?
    ensures var cards := Index(courses, lessons, enrollments, progress, SignedIn(s, Student)).page.cards;
      && EnrollmentController.Index(courses, lessons, enrollments, progress, SignedIn(s, Student)).page == cards
      && forall j :: 0 <= j < |cards| ==>
           cards[j].stats.completed <= Index(courses, lessons, enrollments, progress, SignedIn(s, Student)).page.completedLessons
           && cards[j].stats.percent <= 100
  {
    CardsBounded(EnrollmentsOf(enrollments, s), courses, lessons, progress, s);
  }
}
