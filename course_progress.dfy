/** Lesson completion: the progress row a student's lesson view records, the
    completed-lesson counts, and the per-course percentage three pages show. */
module CourseProgress {
  import opened Domain
  import opened Query
  import opened Lessons

  /** The progress row of a completed lesson. */
  function CompletedRow(s: Id, l: Id, now: Time): Progress {
    Progress(s, l, true, Some(now))
  }

  /** `Progress::updateOrCreate(['student_id' => s, 'lesson_id' => l],
      ['is_completed' => true, 'completed_at' => now])`. */
  function MarkCompleted(rows: seq<Progress>, s: Id, l: Id, now: Time): seq<Progress> {
    Upsert(rows, ProgressPair, CompletedRow(s, l, now))
  }

  /** After a view the (student, lesson) pair has exactly one row, which is
      completed at the time of the view; pairs stay unique. */
  lemma MarkCompletedRecordsOnce(rows: seq<Progress>, s: Id, l: Id, now: Time)
    requires UniqueBy(rows, ProgressPair)
    ensures UniqueBy(MarkCompleted(rows, s, l, now), ProgressPair)
    ensures Find(MarkCompleted(rows, s, l, now), ProgressPair, (s, l)) == Some(CompletedRow(s, l, now))
    ensures Count(MarkCompleted(rows, s, l, now), HasKey(ProgressPair, (s, l))) == 1
  {
    UpsertKeys(rows, ProgressPair, CompletedRow(s, l, now));
    UniqueCountKey(MarkCompleted(rows, s, l, now), ProgressPair, (s, l));
  }

  /** Viewing a lesson again never adds a row: two views leave what the later
      view alone would have left. */
  lemma MarkCompletedTwice(rows: seq<Progress>, s: Id, l: Id, t1: Time, t2: Time)
    ensures MarkCompleted(MarkCompleted(rows, s, l, t1), s, l, t2) == MarkCompleted(rows, s, l, t2)
    ensures |MarkCompleted(MarkCompleted(rows, s, l, t1), s, l, t2)| == |MarkCompleted(rows, s, l, t1)|
  {
    UpsertTwice(rows, ProgressPair, CompletedRow(s, l, t1), CompletedRow(s, l, t2));
    var r := MarkCompleted(rows, s, l, t1);
    assert Locate(r, ProgressPair, (s, l)).Some? by {
      match Locate(rows, ProgressPair, (s, l))
      case Some(i) => assert ProgressPair(r[i]) == (s, l);
      case None => assert ProgressPair(r[|rows|]) == (s, l);
    }
  }

  /** The percentage shown: `round(completed / total * 100)`, or 0 without
      lessons, in exact integer arithmetic rounding halves up. */
  function Percent(completed: nat, total: nat): (r: nat)
    ensures total == 0 ==> r == 0
    ensures total > 0 ==> 2 * total * r <= 200 * completed + total < 2 * total * (r + 1)
  {
    if total == 0 then 0 else (200 * completed + total) / (2 * total)
  }

  /** Rounding keeps the percentage within 0..100 when no more lessons are
      completed than there are. */
  lemma PercentBounded(completed: nat, total: nat)
    requires completed <= total
    ensures Percent(completed, total) <= 100
  {
    if total > 0 {
      var r := Percent(completed, total);
      MulMonotone(2 * total, completed, total);
      if r >= 101 {
        MulMonotone(2 * total, 101, r);
        assert false;
      }
    }
  }

  lemma MulMonotone(a: nat, b: nat, c: nat)
    requires b <= c
    ensures a * b <= a * c
  {
    assert a * c == a * b + a * (c - b);
  }

  /** All lessons completed gives 100, none gives 0. */
  lemma PercentEnds(total: nat)
    ensures Percent(total, total) == if total == 0 then 0 else 100
    ensures Percent(0, total) == 0
  {
  }

  /** `Progress::where('student_id', s)->where('is_completed', true)`. */
  function CompletedBy(s: Id): Progress -> bool {
    (p: Progress) => p.studentId == s && p.isCompleted
  }

  /** The same, restricted to the lessons whose ids are in `ids`
      (`whereIn('lesson_id', ...)`). */
  function CompletedAmong(s: Id, ids: seq<Id>): Progress -> bool {
    (p: Progress) => p.studentId == s && p.lessonId in ids && p.isCompleted
  }

  /** The dashboard's and the admin page's `completedLessons`: every completed
      row of the student, whatever the course. */
  function CompletedLessons(progress: seq<Progress>, s: Id): nat {
    Count(progress, CompletedBy(s))
  }

  /** The per-course figures of one card: completed, total, percentage. */
  datatype Stats = Stats(completed: nat, total: nat, percent: nat)

  function CourseStats(progress: seq<Progress>, lessons: seq<Lesson>, s: Id, c: Id): Stats {
    var course := CourseLessons(lessons, c);
    var completed := Count(progress, CompletedAmong(s, Pluck(course, LessonKey)));
    Stats(completed, |course|, Percent(completed, |course|))
  }

  function ProgressLesson(p: Progress): Id { p.lessonId }

  /** A filter keeps no more rows than a weaker filter. */
  lemma {:induction false} CountMonotone<T>(rows: seq<T>, p: T -> bool, q: T -> bool)
    requires forall x :: p(x) ==> q(x)
    ensures Count(rows, p) <= Count(rows, q)
  {
    if |rows| > 0 {
      CountMonotone(rows[1..], p, q);
    }
  }

  /** A student's completed rows name distinct lessons, since pairs are unique. */
  lemma OneStudentUnique(progress: seq<Progress>, f: Progress -> bool, s: Id)
    requires UniqueBy(progress, ProgressPair)
    requires forall x :: f(x) ==> x.studentId == s
    ensures UniqueBy(Where(progress, f), ProgressLesson)
  {
    WhereKeepsUnique(progress, f, ProgressPair);
    var w := Where(progress, f);
    forall i, j | 0 <= i < j < |w| ensures ProgressLesson(w[i]) != ProgressLesson(w[j]) {
      assert ProgressPair(w[i]) != ProgressPair(w[j]);
      assert f(w[i]) && f(w[j]);
    }
  }

  /** A card never counts more completed lessons than the course has, so its
      percentage stays within 0..100; and it never counts more than the
      student's overall completed-lesson figure. */
  lemma StatsBounded(progress: seq<Progress>, lessons: seq<Lesson>, s: Id, c: Id)
    requires UniqueBy(progress, ProgressPair)
    ensures CourseStats(progress, lessons, s, c).completed <= CourseStats(progress, lessons, s, c).total
    ensures CourseStats(progress, lessons, s, c).percent <= 100
    ensures CourseStats(progress, lessons, s, c).completed <= CompletedLessons(progress, s)
  {
    var course := CourseLessons(lessons, c);
    var ids := Pluck(course, LessonKey);
    var w := Where(progress, CompletedAmong(s, ids));
    OneStudentUnique(progress, CompletedAmong(s, ids), s);
    UniqueKeysCount(w, ProgressLesson);
    forall k | k in Keys(w, ProgressLesson) ensures k in Keys(course, LessonKey) {
      var j :| 0 <= j < |w| && ProgressLesson(w[j]) == k;
      assert CompletedAmong(s, ids)(w[j]);
      var m :| 0 <= m < |ids| && ids[m] == k;
      assert LessonKey(course[m]) == k;
    }
    KeySubsetAtMostRows(Keys(w, ProgressLesson), course, LessonKey);
    PercentBounded(|w|, |course|);
    CountMonotone(progress, CompletedAmong(s, ids), CompletedBy(s));
  }

  /** The student has a completed row for lesson `l`. */
  predicate HasCompleted(progress: seq<Progress>, s: Id, l: Id) {
    exists k :: 0 <= k < |progress| && progress[k].studentId == s && progress[k].lessonId == l
                && progress[k].isCompleted
  }

  /** Every lesson of the list with a completed row is counted. */
  lemma CompletedCovers(progress: seq<Progress>, course: seq<Lesson>, s: Id)
    requires forall m :: 0 <= m < |course| ==> HasCompleted(progress, s, course[m].id)
    ensures Keys(course, LessonKey)
            <= Keys(Where(progress, CompletedAmong(s, Pluck(course, LessonKey))), ProgressLesson)
  {
    var ids := Pluck(course, LessonKey);
    var w := Where(progress, CompletedAmong(s, ids));
    forall k | k in Keys(course, LessonKey) ensures k in Keys(w, ProgressLesson) {
      var m :| 0 <= m < |course| && LessonKey(course[m]) == k;
      assert HasCompleted(progress, s, course[m].id);
      var n :| 0 <= n < |progress| && progress[n].studentId == s && progress[n].lessonId == k
               && progress[n].isCompleted;
      assert ids[m] == k;
      assert CompletedAmong(s, ids)(progress[n]);
      assert progress[n] in w;
    }
  }

  /** When every lesson of the course has a completed row of the student, the
      card shows all lessons completed, and 100 if the course has lessons
      (lesson ids are unique). */
  lemma AllCompletedIsFull(progress: seq<Progress>, lessons: seq<Lesson>, s: Id, c: Id)
    requires UniqueBy(progress, ProgressPair) && UniqueBy(lessons, LessonKey)
    requires forall m :: 0 <= m < |CourseLessons(lessons, c)| ==>
               HasCompleted(progress, s, CourseLessons(lessons, c)[m].id)
    ensures CourseStats(progress, lessons, s, c).completed == CourseStats(progress, lessons, s, c).total
    ensures |CourseLessons(lessons, c)| > 0 ==> CourseStats(progress, lessons, s, c).percent == 100
  {
    var course := CourseLessons(lessons, c);
    var w := Where(progress, CompletedAmong(s, Pluck(course, LessonKey)));
    StatsBounded(progress, lessons, s, c);
    OneStudentUnique(progress, CompletedAmong(s, Pluck(course, LessonKey)), s);
    UniqueKeysCount(w, ProgressLesson);
    WhereKeepsUnique(lessons, InCourse(c), LessonKey);
    UniqueKeysCount(course, LessonKey);
    CompletedCovers(progress, course, s);
    SubsetCardinality(Keys(course, LessonKey), Keys(w, ProgressLesson));
    assert |w| == |course|;
    PercentEnds(|course|);
  }

  /** A student with no completed rows sees 0 on every card. */
  lemma NoneCompletedIsZero(progress: seq<Progress>, lessons: seq<Lesson>, s: Id, c: Id)
    requires CompletedLessons(progress, s) == 0
    ensures CourseStats(progress, lessons, s, c).completed == 0
    ensures CourseStats(progress, lessons, s, c).percent == 0
  {
    var ids := Pluck(CourseLessons(lessons, c), LessonKey);
    CountMonotone(progress, CompletedAmong(s, ids), CompletedBy(s));
  }
}
