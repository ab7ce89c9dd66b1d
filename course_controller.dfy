/** The course pages: an instructor's own list, the public catalogue, one
    course's page, and creating, editing and deleting courses. */
module CourseController {
  import opened Domain
  import opened Query
  import opened Sorting
  import opened Routes
  import opened Authorization
  import opened Requests
  import opened Database
  import opened Validation
  import opened Enrollments
  import opened Lessons

  const Created := "Course created successfully!"
  const Updated := "Course updated successfully!"
  const Deleted := "Course deleted successfully!"

  function OwnedBy(id: Id): Course -> bool {
    (c: Course) => c.instructorId == id
  }

  function IsPublished(): Course -> bool {
    (c: Course) => c.isPublished
  }

  /** `index`: the courses whose instructor is the signed-in user, whatever
      the role. */
  function Index(courses: seq<Course>, p: Principal): (r: Page<seq<Course>>)
    ensures p.Guest? <==> r == Denied(RedirectToLogin)
    ensures p.SignedIn? ==> r.Shown?
    ensures r.Shown? ==> forall j :: 0 <= j < |r.page| ==> r.page[j] in courses && r.page[j].instructorId == p.id
    ensures r.Shown? ==> forall j :: 0 <= j < |courses| && courses[j].instructorId == p.id ==> courses[j] in r.page
  {
    var d := Decide(p, CoursesIndex, NoTarget);
    if d != Allow then Denied(d) else Shown(Where(courses, OwnedBy(p.id)))
  }

  /** `browse`: the published courses, for anyone. The view prints each
      course's instructor name, so a listed course whose instructor row is
      gone makes the page fail. */
  function Browse(users: seq<User>, courses: seq<Course>, p: Principal): (r: Page<seq<Course>>)
    ensures !r.Denied?
    ensures r.Crashed? <==> exists c :: c in courses && c.isPublished && !UserExists(users, c.instructorId)
    ensures r.Shown? ==> forall j :: 0 <= j < |r.page| ==> r.page[j] in courses && r.page[j].isPublished
    ensures r.Shown? ==> forall j :: 0 <= j < |courses| && courses[j].isPublished ==> courses[j] in r.page
  {
    var d := Decide(p, CoursesBrowse, NoTarget);
    if d != Allow then Denied(d)
    else
      var listed := Where(courses, IsPublished());
      if forall c :: c in listed ==> UserExists(users, c.instructorId) then Shown(listed)
      else
        WhereMembers(courses, IsPublished());
        Crashed
  }

  /** The course page: the course, its instructor, its lessons by order, and
      whether the viewer is a student enrolled in it. */
  datatype CoursePage = CoursePage(course: Course, instructor: User, lessons: seq<Lesson>, isEnrolled: bool)

  /** `show`: any existing course, published or not, for anyone. The view
      prints the instructor's name, so the page fails when that row is gone. */
  function Show(users: seq<User>, courses: seq<Course>, lessons: seq<Lesson>, enrollments: seq<Enrollment>,
                p: Principal, courseId: Id): (r: Page<CoursePage>)
    ensures r.Denied? <==> Find(courses, CourseKey, courseId).None?
    ensures r.Denied? ==> r.decision == NotFound
    ensures r.Crashed? <==> Find(courses, CourseKey, courseId).Some?
                            && !UserExists(users, Find(courses, CourseKey, courseId).value.instructorId)
    ensures r.Shown? ==> && Some(r.page.course) == Find(courses, CourseKey, courseId)
                         && Some(r.page.instructor) == Find(users, UserKey, r.page.course.instructorId)
                         && r.page.lessons == OrderedLessons(lessons, courseId)
                         && (r.page.isEnrolled <==> p.SignedIn? && p.role == Student
                                                    && IsEnrolled(enrollments, p.id, courseId))
  {
    var t := CourseTarget(courses, enrollments, p, courseId, true);
    var d := Decide(p, CoursesShow, t);
    if d != Allow then Denied(d)
    else match Find(users, UserKey, t.course.value.instructorId)
      case None => Crashed
      case Some(instructor) =>
        Shown(CoursePage(t.course.value, instructor, OrderedLessons(lessons, courseId),
                         p.SignedIn? && p.role == Student && IsEnrolled(enrollments, p.id, courseId)))
  }

  /** An unpublished course has the same page as a published one: `show` does
      not consult the course policy's `view`. */
  lemma ShowIgnoresPublication(users: seq<User>, courses: seq<Course>, lessons: seq<Lesson>,
                               enrollments: seq<Enrollment>, p: Principal, i: nat)
    requires UniqueBy(courses, CourseKey) && i < |courses|
    ensures var flipped := courses[i := courses[i].(isPublished := !courses[i].isPublished)];
      var before := Show(users, courses, lessons, enrollments, p, courses[i].id);
      var after := Show(users, flipped, lessons, enrollments, p, courses[i].id);
      && !before.Denied? && !after.Denied?
      && (after.Crashed? <==> before.Crashed?)
      && (after.Shown? ==> && after.page.instructor == before.page.instructor
                           && after.page.lessons == before.page.lessons
                           && after.page.isEnrolled == before.page.isEnrolled)
  {
    var flipped := courses[i := courses[i].(isPublished := !courses[i].isPublished)];
    assert CourseKey(flipped[i]) == courses[i].id;
  }

  /** The course form: title, description, thumbnail, and on edit the
      publication flag. */
  datatype CourseForm = CourseForm(
    title: Field<string>,
    description: Field<string>,
    thumbnail: Field<string>,
    isPublished: Field<bool>)

  /** The rules of `store`. */
  predicate ValidNewCourse(f: CourseForm) {
    && RequiredString(f.title, 255)
    && NullableString(f.description, None)
    && NullableString(f.thumbnail, Some(255))
  }

  /** The rules of `update`: those of `store` and `boolean` for the flag. */
  predicate ValidCourseUpdate(f: CourseForm) {
    ValidNewCourse(f) && Boolean(f.isPublished)
  }

  /** The course `store` creates: owned by the signed-in user and unpublished;
      a publication flag in the form is ignored. */
  function NewCourse(id: Id, owner: Id, f: CourseForm): Course
    requires f.title.Filled?
  {
    Course(id, owner, f.title.value, NullableValue(f.description), NullableValue(f.thumbnail), false)
  }

  /** `$course->update($validated)`: the flag changes only when the form
      carries it; the owner never changes. */
  function UpdatedCourse(c: Course, f: CourseForm): Course
    requires f.title.Filled?
  {
    c.(title := f.title.value, description := Overwrite(c.description, f.description),
       thumbnail := Overwrite(c.thumbnail, f.thumbnail),
       isPublished := if f.isPublished.Filled? then f.isPublished.value else c.isPublished)
  }

  /** A new course starts unpublished and owned by its creator, so only the
      creator sees it in the own-course list; an update keeps the owner and
      publishes exactly as the form says. */
  lemma CourseLifecycle(id: Id, owner: Id, f: CourseForm, c: Course)
    requires f.title.Filled?
    ensures !NewCourse(id, owner, f).isPublished && NewCourse(id, owner, f).instructorId == owner
    ensures NewCourse(id, owner, f).id == id && NewCourse(id, owner, f).title == f.title.value
    ensures UpdatedCourse(c, f).id == c.id && UpdatedCourse(c, f).instructorId == c.instructorId
    ensures UpdatedCourse(c, f).isPublished == if f.isPublished.Filled? then f.isPublished.value else c.isPublished
    ensures UpdatedCourse(UpdatedCourse(c, f), f) == UpdatedCourse(c, f)
  {
  }

  /** Any signed-in user may create a course: the routes and the controller
      never ask the policy's `create`, so a student or an admin may too. */
  lemma AnyoneSignedInMayCreate(id: Id, role: Role)
    ensures Decide(SignedIn(id, role), CoursesStore, NoTarget) == Allow
    ensures Decide(SignedIn(id, role), CoursesCreate, NoTarget) == Allow
  {
  }

  /** `store`. */
  method Store(db: Db, p: Principal, f: CourseForm) returns (r: Response)
    requires db.Valid()
    modifies db`courses, db`nextId
    ensures db.Valid()
    ensures var d := Decide(p, CoursesStore, NoTarget);
      if d != Allow then r == Refused(d) && db.courses == old(db.courses) && db.nextId == old(db.nextId)
      else if !ValidNewCourse(f) then r == Invalid && db.courses == old(db.courses) && db.nextId == old(db.nextId)
      else && r == Succeeded(Created)
           && db.nextId == old(db.nextId) + 1
           && db.courses == old(db.courses) + [NewCourse(old(db.nextId), p.id, f)]
  {
    var d := Decide(p, CoursesStore, NoTarget);
    if d != Allow {
      return Refused(d);
    }
    if !ValidNewCourse(f) {
      return Invalid;
    }
    var id := db.NewId();
    var c := NewCourse(id, p.id, f);
    InsertFresh(db.courses, CourseKey, id, c);
    db.courses := db.courses + [c];
    r := Succeeded(Created);
  }

  /** `edit`: the form, for the course's owner only. */
  function Edit(courses: seq<Course>, enrollments: seq<Enrollment>, p: Principal, courseId: Id): (r: Page<Course>)
    ensures r.Shown? <==> Find(courses, CourseKey, courseId).Some? && IsOwner(p, Find(courses, CourseKey, courseId).value)
    ensures r.Shown? ==> Some(r.page) == Find(courses, CourseKey, courseId)
  {
    var t := CourseTarget(courses, enrollments, p, courseId, true);
    var d := Decide(p, CoursesEdit, t);
    if d != Allow then Denied(d) else Shown(t.course.value)
  }

  /** `update`. */
  method Update(db: Db, p: Principal, courseId: Id, f: CourseForm) returns (r: Response)
    requires db.Valid()
    modifies db`courses
    ensures db.Valid()
    ensures var d := Decide(p, CoursesUpdate, CourseTarget(old(db.courses), db.enrollments, p, courseId, true));
      if d != Allow then r == Refused(d) && db.courses == old(db.courses)
      else if !ValidCourseUpdate(f) then r == Invalid && db.courses == old(db.courses)
      else var i := Locate(old(db.courses), CourseKey, courseId).value;
        && r == Succeeded(Updated)
        && db.courses == old(db.courses)[i := UpdatedCourse(old(db.courses)[i], f)]
  {
    var d := Decide(p, CoursesUpdate, CourseTarget(db.courses, db.enrollments, p, courseId, true));
    if d != Allow {
      return Refused(d);
    }
    if !ValidCourseUpdate(f) {
      return Invalid;
    }
    var i := Locate(db.courses, CourseKey, courseId).value;
    var c := UpdatedCourse(db.courses[i], f);
    ReplaceKeepsTable(db.courses, CourseKey, db.nextId, i, c);
    db.courses := db.courses[i := c];
    r := Succeeded(Updated);
  }

  /** `destroy`: deletes the course row; its lessons, assignments and
      enrollments are not touched. */
  method Destroy(db: Db, p: Principal, courseId: Id) returns (r: Response)
    requires db.Valid()
    modifies db`courses
    ensures db.Valid()
    ensures var d := Decide(p, CoursesDestroy, CourseTarget(old(db.courses), db.enrollments, p, courseId, true));
      if d != Allow then r == Refused(d) && db.courses == old(db.courses)
      else && r == Succeeded(Deleted)
           && db.courses == RemoveAt(old(db.courses), Locate(old(db.courses), CourseKey, courseId).value)
           && Find(db.courses, CourseKey, courseId).None?
  {
    var d := Decide(p, CoursesDestroy, CourseTarget(db.courses, db.enrollments, p, courseId, true));
    if d != Allow {
      return Refused(d);
    }
    var i := Locate(db.courses, CourseKey, courseId).value;
    RemoveKeepsTable(db.courses, CourseKey, db.nextId, i);
    db.courses := RemoveAt(db.courses, i);
    r := Succeeded(Deleted);
  }
}
