/** A course's lesson list: the lessons of one course, their order, the
    order a new lesson takes by default, and a lesson's neighbours. */
module Lessons {
  import opened Domain
  import opened Query
  import opened Sorting

  function InCourse(c: Id): Lesson -> bool {
    (l: Lesson) => l.courseId == c
  }

  /** `$course->lessons`: the lessons whose `course_id` is `c`. */
  function CourseLessons(lessons: seq<Lesson>, c: Id): seq<Lesson> {
    Where(lessons, InCourse(c))
  }

  /** `$course->lessons()->orderBy('order')->get()`. */
  function OrderedLessons(lessons: seq<Lesson>, c: Id): (r: seq<Lesson>)
    ensures multiset(r) == multiset(CourseLessons(lessons, c))
    ensures Sorted(r, LessonOrderLe)
  {
    LessonOrderIsTotalPreorder();
    SortBy(CourseLessons(lessons, c), LessonOrderLe)
  }

  /** `max('order')`: the largest order that is not null, or null. */
  function MaxOrder(rows: seq<Lesson>): (r: Option<int>)
    ensures r.None? <==> forall j :: 0 <= j < |rows| ==> rows[j].order.None?
    ensures r.Some? ==> exists j :: 0 <= j < |rows| && rows[j].order == r
    ensures r.Some? ==> forall j :: 0 <= j < |rows| && rows[j].order.Some? ==> rows[j].order.value <= r.value
  {
    if |rows| == 0 then None
    else
      var rest := MaxOrder(rows[1..]);
      assert forall j :: 1 <= j < |rows| ==> rows[j] == rows[1..][j - 1];
      match rows[0].order
      case None => rest
      case Some(o) =>
        if rest.Some? && rest.value > o then
          var j :| 0 <= j < |rows[1..]| && rows[1..][j].order == rest;
          assert rows[j + 1].order == rest;
          rest
        else Some(o)
  }

  /** `($course->lessons()->max('order') ?? 0) + 1`. */
  function DefaultOrder(courseLessons: seq<Lesson>): int {
    (match MaxOrder(courseLessons) case None => 0 case Some(m) => m) + 1
  }

  /** The default order is above every order in the course, and 1 when no
      lesson has one; so a lesson stored with it sorts after every lesson of
      the course that has an order, and not before any lesson. */
  lemma DefaultOrderSortsLast(courseLessons: seq<Lesson>, l: Lesson)
    requires l.order == Some(DefaultOrder(courseLessons))
    ensures forall j :: 0 <= j < |courseLessons| && courseLessons[j].order.Some? ==>
              courseLessons[j].order.value < DefaultOrder(courseLessons)
    ensures (forall j :: 0 <= j < |courseLessons| ==> courseLessons[j].order.None?) ==> DefaultOrder(courseLessons) == 1
    ensures forall j :: 0 <= j < |courseLessons| ==> LessonOrderLe(courseLessons[j], l)
    ensures forall j :: 0 <= j < |courseLessons| && courseLessons[j].order.Some? ==>
              !LessonOrderLe(l, courseLessons[j])
  {
  }

  /** The lessons shown before and after the current one. */
  datatype Neighbours = Neighbours(previous: Option<Lesson>, next: Option<Lesson>)

  /** `$allLessons->search(fn => id)` and the two index tests. When the lesson
      is not in the list, `search` gives `false`, which PHP compares as a
      boolean: there is no previous lesson, the next one is the list's second,
      and an empty list fails on the missing element (None here). */
  function Adjacent(sorted: seq<Lesson>, id: Id): (r: Option<Neighbours>)
    ensures r.None? <==> |sorted| == 0
  {
    match Locate(sorted, LessonKey, id)
    case Some(i) =>
      Some(Neighbours(if i > 0 then Some(sorted[i - 1]) else None,
                      if i < |sorted| - 1 then Some(sorted[i + 1]) else None))
    case None =>
      if |sorted| == 0 then None
      else Some(Neighbours(None, if |sorted| > 1 then Some(sorted[1]) else None))
  }

  /** For a lesson in the list (ids unique): the previous lesson is the one
      before it, absent exactly at the first position; the next is the one
      after it, absent exactly at the last. */
  lemma AdjacentInList(sorted: seq<Lesson>, i: nat)
    requires UniqueBy(sorted, LessonKey) && i < |sorted|
    ensures Adjacent(sorted, sorted[i].id).Some?
    ensures var n := Adjacent(sorted, sorted[i].id).value;
      && (n.previous.None? <==> i == 0)
      && (n.previous.Some? ==> n.previous.value == sorted[i - 1])
      && (n.next.None? <==> i == |sorted| - 1)
      && (n.next.Some? ==> n.next.value == sorted[i + 1])
  {
    UniqueLocate(sorted, LessonKey, i);
  }

  /** In the course's ordered list the neighbours are lessons of the course,
      the previous one ordered no later and the next one no earlier. */
  lemma NeighboursInOrder(lessons: seq<Lesson>, c: Id, i: nat)
    requires UniqueBy(lessons, LessonKey)
    requires i < |OrderedLessons(lessons, c)|
    ensures var sorted := OrderedLessons(lessons, c);
      var n := Adjacent(sorted, sorted[i].id).value;
      && (n.previous.Some? ==> n.previous.value.courseId == c && LessonOrderLe(n.previous.value, sorted[i]))
      && (n.next.Some? ==> n.next.value.courseId == c && LessonOrderLe(sorted[i], n.next.value))
  {
    var sorted := OrderedLessons(lessons, c);
    WhereKeepsUnique(lessons, InCourse(c), LessonKey);
    PermutationKeepsUnique(CourseLessons(lessons, c), sorted);
    AdjacentInList(sorted, i);
    forall j | 0 <= j < |sorted| ensures sorted[j].courseId == c {
      assert sorted[j] in multiset(CourseLessons(lessons, c));
    }
  }

  /** A lesson that is not in the course's list (the route's lesson belongs to
      another course): no previous lesson, and the list's second lesson as
      the next one. */
  lemma AdjacentNotInList(sorted: seq<Lesson>, id: Id)
    requires forall j :: 0 <= j < |sorted| ==> sorted[j].id != id
    ensures |sorted| > 0 ==> Adjacent(sorted, id) == Some(Neighbours(None, if |sorted| > 1 then Some(sorted[1]) else None))
  {
  }

  /** Reordering keeps ids unique. */
  lemma PermutationKeepsUnique(a: seq<Lesson>, b: seq<Lesson>)
    requires UniqueBy(a, LessonKey) && multiset(a) == multiset(b)
    ensures UniqueBy(b, LessonKey)
  {
    UniqueAtMostOnce(a);
    forall i, j | 0 <= i < j < |b| ensures LessonKey(b[i]) != LessonKey(b[j]) {
      TwiceInSeq(b, i, j);
      assert b[i] in multiset(a) && b[j] in multiset(a);
      var x :| 0 <= x < |a| && a[x] == b[i];
      var y :| 0 <= y < |a| && a[y] == b[j];
    }
  }

  /** Under unique ids no lesson occurs twice. */
  lemma {:induction false} UniqueAtMostOnce(a: seq<Lesson>)
    requires UniqueBy(a, LessonKey)
    ensures forall v :: multiset(a)[v] <= 1
  {
    if |a| > 0 {
      var tail := a[1..];
      assert UniqueBy(tail, LessonKey) by {
        forall i, j | 0 <= i < j < |tail| ensures LessonKey(tail[i]) != LessonKey(tail[j]) {
          assert tail[i] == a[i + 1] && tail[j] == a[j + 1];
        }
      }
      UniqueAtMostOnce(tail);
      forall j | 0 <= j < |tail| ensures tail[j] != a[0] {
        assert LessonKey(a[0]) != LessonKey(a[j + 1]);
      }
      assert a == [a[0]] + tail;
      assert multiset(a) == multiset{a[0]} + multiset(tail);
    }
  }

  /** Two positions holding the same lesson make it occur twice. */
  lemma TwiceInSeq(b: seq<Lesson>, i: nat, j: nat)
    requires i < j < |b|
    ensures b[i] == b[j] ==> multiset(b)[b[i]] >= 2
  {
    assert b == b[..i] + [b[i]] + b[i + 1..j] + [b[j]] + b[j + 1..];
  }
}
