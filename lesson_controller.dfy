/** The lesson pages of a course: creating, editing and deleting lessons, and
    viewing one lesson, which records the student's completion. */
module LessonController {
  import opened Domain
  import opened Query
  import opened Sorting
  import opened Routes
  import opened Authorization
  import opened Requests
  import opened Database
  import opened Validation
  import opened Lessons
  import opened CourseProgress
  import opened VideoEmbed
  import opened Enrollments

  const Created := "Lesson created successfully!"
  const Updated := "Lesson updated successfully!"
  const Deleted := "Lesson deleted successfully!"

  /** The lesson form: title, content, type, video URL and order. */
  datatype LessonForm = LessonForm(
    title: Field<string>,
    content: Field<string>,
    kind: Field<string>,
    videoUrl: Field<string>,
    order: Field<int>)

  /** The form names a title and one of the two lesson types. */
  predicate Parsed(f: LessonForm) {
    f.title.Filled? && f.kind.Filled? && LessonTypeOf(f.kind.value).Some?
  }

  /** `nullable|url|required_if:type,video`: a video lesson needs a URL; a text
      lesson may leave it out or empty; a given URL must be well formed. A URL
      that is empty once trimmed is not checked by `url` and fails
      `required_if` for a video lesson only. */
  predicate VideoUrlRule(f: Field<string>, kind: LessonType, fx: Foreign) {
    match f
    case Absent | Blank => kind == Text
    case Malformed => false
    case Filled(u) => if Trim(u) == [] then kind == Text else fx.isUrl(u)
  }

  /** A video URL made only of whitespace passes for a text lesson and fails
      for a video lesson, whatever the URL check says; any other URL passes
      exactly when it is well formed. */
  lemma BlankVideoUrl(u: string, kind: LessonType, fx: Foreign)
    ensures (forall i :: 0 <= i < |u| ==> Trimmed(u[i])) ==> (VideoUrlRule(Filled(u), kind, fx) <==> kind == Text)
    ensures (exists i :: 0 <= i < |u| && !Trimmed(u[i])) ==> (VideoUrlRule(Filled(u), kind, fx) <==> fx.isUrl(u))
  {
    BlankIffAllTrimmed(u);
  }

  /** The rules of `store` and `update`, which are the same. */
  predicate ValidLesson(f: LessonForm, fx: Foreign) {
    && Parsed(f)
    && RequiredString(f.title, 255)
    && NullableString(f.content, None)
    && VideoUrlRule(f.videoUrl, LessonTypeOf(f.kind.value).value, fx)
    && NullableIntAtLeast(f.order, 0)
  }

  /** The lesson `store` creates: the form's order, or one past the course's
      largest order when the form gives none. */
  function NewLesson(id: Id, courseId: Id, f: LessonForm, courseLessons: seq<Lesson>): Lesson
    requires Parsed(f)
  {
    Lesson(id, courseId, f.title.value, NullableValue(f.content), LessonTypeOf(f.kind.value).value,
           NullableValue(f.videoUrl), Some(if f.order.Filled? then f.order.value else DefaultOrder(courseLessons)))
  }

  /** `$lesson->update($validated)`: title and type are always written; content,
      video URL and order only when the form carries them, a blank one as null.
      The id and the course stay. */
  function UpdatedLesson(l: Lesson, f: LessonForm): Lesson
    requires Parsed(f)
  {
    l.(title := f.title.value, content := Overwrite(l.content, f.content),
       kind := LessonTypeOf(f.kind.value).value, videoUrl := Overwrite(l.videoUrl, f.videoUrl),
       order := Overwrite(l.order, f.order))
  }

  /** A stored lesson keeps the form's values; without an order it is placed
      after every lesson of the course that has one, and before none. */
  lemma NewLessonPlacement(id: Id, courseId: Id, f: LessonForm, courseLessons: seq<Lesson>)
    requires Parsed(f)
    ensures var l := NewLesson(id, courseId, f, courseLessons);
      && l.id == id && l.courseId == courseId && l.title == f.title.value
      && (l.kind == Video <==> f.kind.value == "video")
      && (f.order.Filled? ==> l.order == Some(f.order.value))
      && (!f.order.Filled? ==>
            (forall j :: 0 <= j < |courseLessons| ==> !LessonOrderLe(l, courseLessons[j]))
            || (forall j :: 0 <= j < |courseLessons| ==> courseLessons[j].order.None?))
  {
    var l := NewLesson(id, courseId, f, courseLessons);
    if !f.order.Filled? {
      DefaultOrderSortsLast(courseLessons, l);
    }
  }

  /** A lesson stored without an order (and with a fresh id) comes last in
      its course's ordered list, whatever the orders of the others. */
  lemma StoredWithoutOrderComesLast(lessons: seq<Lesson>, l: Lesson)
    requires l.order == Some(DefaultOrder(CourseLessons(lessons, l.courseId)))
    requires forall j :: 0 <= j < |lessons| ==> lessons[j].id != l.id
    ensures var ordered := OrderedLessons(lessons + [l], l.courseId);
      |ordered| > 0 && ordered[|ordered| - 1] == l
  {
    var before := CourseLessons(lessons, l.courseId);
    WhereAppend(lessons, l, InCourse(l.courseId));
    assert multiset(before + [l]) == multiset(before) + multiset{l};
    FreshNotAmong(lessons, l);
    NotOrderedBeforeAny(before, l);
    GreatestIsLast(OrderedLessons(lessons + [l], l.courseId), before, l);
  }

  /** A lesson with a fresh id is none of the course's lessons. */
  lemma FreshNotAmong(lessons: seq<Lesson>, l: Lesson)
    requires forall j :: 0 <= j < |lessons| ==> lessons[j].id != l.id
    ensures multiset(CourseLessons(lessons, l.courseId))[l] == 0
  {
    var before := CourseLessons(lessons, l.courseId);
    forall m | 0 <= m < |before| ensures before[m] != l {
      assert before[m] in lessons;
    }
  }

  /** A lesson with the default order is ordered before none of the course's
      lessons. */
  lemma NotOrderedBeforeAny(before: seq<Lesson>, l: Lesson)
    requires l.order == Some(DefaultOrder(before))
    ensures forall x :: x in multiset(before) ==> !LessonOrderLe(l, x)
  {
    DefaultOrderSortsLast(before, l);
    forall x | x in multiset(before) ensures !LessonOrderLe(l, x) {
      var m :| 0 <= m < |before| && before[m] == x;
    }
  }

  /** Sorting `before` with `l` added, where `l` is new and ordered before no
      element of `before`, puts `l` last. */
  lemma GreatestIsLast(r: seq<Lesson>, before: seq<Lesson>, l: Lesson)
    requires Sorted(r, LessonOrderLe) && multiset(r) == multiset(before) + multiset{l}
    requires multiset(before)[l] == 0
    requires forall x :: x in multiset(before) ==> !LessonOrderLe(l, x)
    ensures |r| > 0 && r[|r| - 1] == l
  {
    assert l in multiset(r);
    var k :| 0 <= k < |r| && r[k] == l;
    forall j | 0 <= j < |r| && j != k ensures r[j] != l {
      if j < k { TwiceInSeq(r, j, k); } else { TwiceInSeq(r, k, j); }
    }
    assert r[|r| - 1] in multiset(r);
  }

  /** Updating keeps the lesson's id and its course (also when the route names
      another course), and sending the same form twice changes nothing more. */
  lemma UpdateKeepsIdentity(l: Lesson, f: LessonForm)
    requires Parsed(f)
    ensures UpdatedLesson(l, f).id == l.id && UpdatedLesson(l, f).courseId == l.courseId
    ensures UpdatedLesson(UpdatedLesson(l, f), f) == UpdatedLesson(l, f)
    ensures f.order.Blank? ==> forall m: Lesson :: LessonOrderLe(UpdatedLesson(l, f), m)
    ensures f.order.Absent? ==> UpdatedLesson(l, f).order == l.order
  {
  }

  /** The pages `create` and `edit` show: the course, and the lesson for `edit`. */
  datatype Form = Form(course: Course, lesson: Option<Lesson>)

  /** `create`: the form for a new lesson, for the course's own instructor. */
  function Create(courses: seq<Course>, enrollments: seq<Enrollment>, p: Principal, courseId: Id): (r: Page<Form>)
    ensures r.Shown? <==> p.SignedIn? && p.role == Instructor && Find(courses, CourseKey, courseId).Some?
                          && p.id == Find(courses, CourseKey, courseId).value.instructorId
    ensures r.Shown? ==> r.page == Form(Find(courses, CourseKey, courseId).value, None)
  {
    var d := Decide(p, LessonsCreate, CourseTarget(courses, enrollments, p, courseId, true));
    if d != Allow then Denied(d) else Shown(Form(Find(courses, CourseKey, courseId).value, None))
  }

  /** `edit`: the form for an existing lesson, for the course's own instructor.
      The lesson is looked up in the whole table, not among the course's lessons. */
  function Edit(courses: seq<Course>, lessons: seq<Lesson>, enrollments: seq<Enrollment>, p: Principal,
                courseId: Id, lessonId: Id): (r: Page<Form>)
    ensures r.Shown? <==> p.SignedIn? && p.role == Instructor && Find(courses, CourseKey, courseId).Some?
                          && Find(lessons, LessonKey, lessonId).Some?
                          && p.id == Find(courses, CourseKey, courseId).value.instructorId
    ensures r.Shown? ==> r.page.lesson == Find(lessons, LessonKey, lessonId)
    ensures Find(lessons, LessonKey, lessonId).None? ==> r.Denied?
  {
    var t := CourseTarget(courses, enrollments, p, courseId, Find(lessons, LessonKey, lessonId).Some?);
    var d := Decide(p, LessonsEdit, t);
    if d != Allow then Denied(d)
    else Shown(Form(Find(courses, CourseKey, courseId).value, Find(lessons, LessonKey, lessonId)))
  }

  /** `store`. */
  method Store(db: Db, p: Principal, courseId: Id, f: LessonForm, fx: Foreign) returns (r: Response)
    requires db.Valid()
    modifies db`lessons, db`nextId
    ensures db.Valid()
    ensures var d := Decide(p, LessonsStore, CourseTarget(db.courses, db.enrollments, p, courseId, true));
      if d != Allow then r == Refused(d) && db.lessons == old(db.lessons) && db.nextId == old(db.nextId)
      else if !ValidLesson(f, fx) then r == Invalid && db.lessons == old(db.lessons) && db.nextId == old(db.nextId)
      else && r == Succeeded(Created)
           && db.nextId == old(db.nextId) + 1
           && db.lessons == old(db.lessons)
                + [NewLesson(old(db.nextId), courseId, f, CourseLessons(old(db.lessons), courseId))]
  {
    var d := Decide(p, LessonsStore, CourseTarget(db.courses, db.enrollments, p, courseId, true));
    if d != Allow {
      return Refused(d);
    }
    if !ValidLesson(f, fx) {
      return Invalid;
    }
    var id := db.NewId();
    var l := NewLesson(id, courseId, f, CourseLessons(db.lessons, courseId));
    InsertFresh(db.lessons, LessonKey, id, l);
    db.lessons := db.lessons + [l];
    r := Succeeded(Created);
  }

  /** `update`; the lesson is the route's `{lesson}`, found in the whole table. */
  method Update(db: Db, p: Principal, courseId: Id, lessonId: Id, f: LessonForm, fx: Foreign) returns (r: Response)
    requires db.Valid()
    modifies db`lessons
    ensures db.Valid()
    ensures var t := CourseTarget(db.courses, db.enrollments, p, courseId, Locate(old(db.lessons), LessonKey, lessonId).Some?);
      var d := Decide(p, LessonsUpdate, t);
      if d != Allow then r == Refused(d) && db.lessons == old(db.lessons)
      else if !ValidLesson(f, fx) then r == Invalid && db.lessons == old(db.lessons)
      else var i := Locate(old(db.lessons), LessonKey, lessonId).value;
        && r == Succeeded(Updated)
        && db.lessons == old(db.lessons)[i := UpdatedLesson(old(db.lessons)[i], f)]
  {
    var t := CourseTarget(db.courses, db.enrollments, p, courseId, Locate(db.lessons, LessonKey, lessonId).Some?);
    var d := Decide(p, LessonsUpdate, t);
    if d != Allow {
      return Refused(d);
    }
    if !ValidLesson(f, fx) {
      return Invalid;
    }
    var i := Locate(db.lessons, LessonKey, lessonId).value;
    var l := UpdatedLesson(db.lessons[i], f);
    ReplaceKeepsTable(db.lessons, LessonKey, db.nextId, i, l);
    db.lessons := db.lessons[i := l];
    r := Succeeded(Updated);
  }

  /** `destroy`: deletes the route's lesson; its progress rows are not touched. */
  method Destroy(db: Db, p: Principal, courseId: Id, lessonId: Id) returns (r: Response)
    requires db.Valid()
    modifies db`lessons
    ensures db.Valid()
    ensures var t := CourseTarget(db.courses, db.enrollments, p, courseId, Locate(old(db.lessons), LessonKey, lessonId).Some?);
      var d := Decide(p, LessonsDestroy, t);
      if d != Allow then r == Refused(d) && db.lessons == old(db.lessons)
      else && r == Succeeded(Deleted)
           && db.lessons == RemoveAt(old(db.lessons), Locate(old(db.lessons), LessonKey, lessonId).value)
           && Find(db.lessons, LessonKey, lessonId).None?
  {
    var t := CourseTarget(db.courses, db.enrollments, p, courseId, Locate(db.lessons, LessonKey, lessonId).Some?);
    var d := Decide(p, LessonsDestroy, t);
    if d != Allow {
      return Refused(d);
    }
    var i := Locate(db.lessons, LessonKey, lessonId).value;
    RemoveKeepsTable(db.lessons, LessonKey, db.nextId, i);
    db.lessons := RemoveAt(db.lessons, i);
    r := Succeeded(Deleted);
  }

  /** What the lesson page shows. */
  datatype LessonPage = LessonPage(
    course: Course,
    lesson: Lesson,
    canEdit: bool,          // the "Edit Lesson" link
    video: VideoBlock,
    showsContent: bool,
    neighbours: Neighbours)

  /** The page for `lesson` in `course`, or a server error when the course has
      no lessons at all (the route's lesson then belongs to another course). */
  function LessonView(lessons: seq<Lesson>, course: Course, lesson: Lesson, p: Principal): (r: Page<LessonPage>)
    ensures r.Crashed? <==> |CourseLessons(lessons, course.id)| == 0
    ensures r.Shown? ==> && r.page.course == course && r.page.lesson == lesson
                         && r.page.video == Block(lesson.kind, lesson.videoUrl)
                         && Some(r.page.neighbours) == Adjacent(OrderedLessons(lessons, course.id), lesson.id)
    ensures r.Shown? ==> (r.page.canEdit <==> p.SignedIn? && p.role == Instructor && IsOwner(p, course))
    ensures r.Shown? ==> (r.page.showsContent <==> lesson.content.Some? && !Falsy(lesson.content.value))
    ensures !r.Denied?
  {
    match Adjacent(OrderedLessons(lessons, course.id), lesson.id)
    case None => Crashed
    case Some(n) =>
      Shown(LessonPage(course, lesson, p.SignedIn? && p.role == Instructor && IsOwner(p, course),
                       Block(lesson.kind, lesson.videoUrl),
                       lesson.content.Some? && !Falsy(lesson.content.value), n))
  }

  /** The route binding of `show`: the course, and whether the lesson exists
      anywhere in the lesson table. */
  function ShowTarget(courses: seq<Course>, lessons: seq<Lesson>, enrollments: seq<Enrollment>, p: Principal,
                      courseId: Id, lessonId: Id): Target
  {
    CourseTarget(courses, enrollments, p, courseId, Find(lessons, LessonKey, lessonId).Some?)
  }

  /** The answer of `show`: refused by the checks, or the lesson page. */
  function ShowResult(courses: seq<Course>, lessons: seq<Lesson>, enrollments: seq<Enrollment>, p: Principal,
                      courseId: Id, lessonId: Id): (r: Page<LessonPage>)
    ensures r.Denied? <==> Decide(p, LessonsShow, ShowTarget(courses, lessons, enrollments, p, courseId, lessonId)) != Allow
    ensures r.Denied? ==> r.decision == Decide(p, LessonsShow, ShowTarget(courses, lessons, enrollments, p, courseId, lessonId))
    ensures !r.Denied? ==> && p.SignedIn? && Find(courses, CourseKey, courseId).Some?
                           && Find(lessons, LessonKey, lessonId).Some?
                           && r == LessonView(lessons, Find(courses, CourseKey, courseId).value,
                                              Find(lessons, LessonKey, lessonId).value, p)
  {
    var t := ShowTarget(courses, lessons, enrollments, p, courseId, lessonId);
    if Decide(p, LessonsShow, t) != Allow then Denied(Decide(p, LessonsShow, t))
    else
      AllowNeedsGuardAndCheck(p, LessonsShow, t);
      assert t.course == Find(courses, CourseKey, courseId) && t.othersFound;
      LessonView(lessons, t.course.value, Find(lessons, LessonKey, lessonId).value, p)
  }

  /** `show`: the page, and for a student the lesson recorded as completed. The
      completion is recorded for the route's lesson, after the list has been
      read, and only when the page is shown. */
  method Show(db: Db, p: Principal, courseId: Id, lessonId: Id, now: Time) returns (r: Page<LessonPage>)
    requires db.Valid()
    modifies db`progress
    ensures db.Valid()
    ensures r == ShowResult(db.courses, db.lessons, db.enrollments, p, courseId, lessonId)
    ensures db.progress == if r.Shown? && p.SignedIn? && p.role == Student
                           then MarkCompleted(old(db.progress), p.id, lessonId, now) else old(db.progress)
  {
    r := ShowResult(db.courses, db.lessons, db.enrollments, p, courseId, lessonId);
    if r.Shown? && p.role == Student {
      RecordCompletion(db, p.id, lessonId, now);
    }
  }

  /** `Progress::updateOrCreate` of the completed row of student `s` for
      lesson `l`; the progress table keeps one row per pair. */
  method RecordCompletion(db: Db, s: Id, l: Id, now: Time)
    requires db.Valid()
    modifies db`progress
    ensures db.Valid()
    ensures db.progress == MarkCompleted(old(db.progress), s, l, now)
  {
    MarkCompletedRecordsOnce(db.progress, s, l, now);
    db.progress := MarkCompleted(db.progress, s, l, now);
  }

  /** A page is shown only to an enrolled student or to the course's owner, and
      a shown page leaves the student with exactly one completed row for the
      lesson. */
  lemma ShownOnlyToMembers(courses: seq<Course>, enrollments: seq<Enrollment>, lessons: seq<Lesson>,
                           progress: seq<Progress>, id: Id, role: Role, courseId: Id, lessonId: Id, now: Time)
    requires UniqueBy(progress, ProgressPair)
    requires Decide(SignedIn(id, role), LessonsShow,
                    CourseTarget(courses, enrollments, SignedIn(id, role), courseId,
                                 Find(lessons, LessonKey, lessonId).Some?)) == Allow
    ensures Find(courses, CourseKey, courseId).Some? && Find(lessons, LessonKey, lessonId).Some?
    ensures role == Student ==> IsEnrolled(enrollments, id, courseId)
    ensures role != Student ==> id == Find(courses, CourseKey, courseId).value.instructorId
    ensures role == Student ==>
      Count(MarkCompleted(progress, id, lessonId, now), HasKey(ProgressPair, (id, lessonId))) == 1
  {
    var t := CourseTarget(courses, enrollments, SignedIn(id, role), courseId, Find(lessons, LessonKey, lessonId).Some?);
    AllowNeedsGuardAndCheck(SignedIn(id, role), LessonsShow, t);
    LessonShowAccess(id, role, t);
    MarkCompletedRecordsOnce(progress, id, lessonId, now);
  }
}
