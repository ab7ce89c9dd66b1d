/** `orderBy(...)`: a stable insertion sort by a total preorder, and the orders
    the code sorts by. */
module Sorting {
  import opened Domain
  import opened Query

  ghost predicate TotalPreorder<T(!new)>(le: (T, T) -> bool) {
    && (forall a, b :: le(a, b) || le(b, a))
    && (forall a, b, c :: le(a, b) && le(b, c) ==> le(a, c))
  }

  ghost predicate Sorted<T>(s: seq<T>, le: (T, T) -> bool) {
    forall i, j :: 0 <= i < j < |s| ==> le(s[i], s[j])
  }

  lemma TailSorted<T>(s: seq<T>, le: (T, T) -> bool)
    requires |s| > 0 && Sorted(s, le)
    ensures Sorted(s[1..], le)
  {
    forall i, j | 0 <= i < j < |s[1..]| ensures le(s[1..][i], s[1..][j]) {
      assert s[1..][i] == s[i + 1] && s[1..][j] == s[j + 1];
    }
  }

  /** A head below every element of a sorted list makes a sorted list. */
  lemma ConsSorted<T>(h: T, rest: seq<T>, le: (T, T) -> bool)
    requires Sorted(rest, le)
    requires forall k :: 0 <= k < |rest| ==> le(h, rest[k])
    ensures Sorted([h] + rest, le)
  {
    var r := [h] + rest;
    forall i, j | 0 <= i < j < |r| ensures le(r[i], r[j]) {
      assert r[j] == rest[j - 1];
      if i > 0 { assert r[i] == rest[i - 1]; }
    }
  }

  /** A bound on `tail` and on `x` is a bound on any permutation of the two. */
  lemma BelowPermutation<T>(h: T, tail: seq<T>, x: T, rest: seq<T>, le: (T, T) -> bool)
    requires multiset(rest) == multiset(tail) + multiset{x}
    requires le(h, x)
    requires forall m :: 0 <= m < |tail| ==> le(h, tail[m])
    ensures forall k :: 0 <= k < |rest| ==> le(h, rest[k])
  {
    forall k | 0 <= k < |rest| ensures le(h, rest[k]) {
      assert rest[k] in multiset(rest);
      if rest[k] != x {
        assert rest[k] in multiset(tail);
        var m :| 0 <= m < |tail| && tail[m] == rest[k];
      }
    }
  }

  /** Placing `x` after a head it exceeds: the head stays below the rest. */
  lemma InsertAfterHead<T(!new)>(x: T, s: seq<T>, rest: seq<T>, le: (T, T) -> bool)
    requires TotalPreorder(le)
    requires |s| > 0 && !le(x, s[0]) && Sorted(s, le)
    requires multiset(rest) == multiset(s[1..]) + multiset{x}
    requires Sorted(rest, le)
    ensures Sorted([s[0]] + rest, le)
  {
    assert forall m :: 0 <= m < |s[1..]| ==> le(s[0], s[1..][m]) by {
      forall m | 0 <= m < |s[1..]| ensures le(s[0], s[1..][m]) {
        assert s[1..][m] == s[m + 1];
      }
    }
    BelowPermutation(s[0], s[1..], x, rest, le);
    ConsSorted(s[0], rest, le);
  }

  /** `x` placed before the first element it does not exceed. */
  function Insert<T(!new)>(x: T, s: seq<T>, le: (T, T) -> bool): (r: seq<T>)
    requires TotalPreorder(le)
    ensures multiset(r) == multiset(s) + multiset{x}
    ensures Sorted(s, le) ==> Sorted(r, le)
  {
    if |s| == 0 then [x]
    else if le(x, s[0]) then
      assert Sorted(s, le) ==> Sorted([x] + s, le) by {
        if Sorted(s, le) {
          ConsSorted(x, s, le);
        }
      }
      [x] + s
    else
      var rest := Insert(x, s[1..], le);
      assert s == [s[0]] + s[1..];
      assert Sorted(s, le) ==> Sorted([s[0]] + rest, le) by {
        if Sorted(s, le) {
          TailSorted(s, le);
          InsertAfterHead(x, s, rest, le);
        }
      }
      [s[0]] + rest
  }

  /** The sorted permutation of `s`. */
  function SortBy<T(!new)>(s: seq<T>, le: (T, T) -> bool): (r: seq<T>)
    requires TotalPreorder(le)
    ensures multiset(r) == multiset(s)
    ensures |r| == |s|
    ensures Sorted(r, le)
  {
    if |s| == 0 then []
    else
      assert s == [s[0]] + s[1..];
      Insert(s[0], SortBy(s[1..], le), le)
  }

  /** `orderBy('order')` on lessons: MySQL puts NULL first in ascending order. */
  function LessonOrderLe(a: Lesson, b: Lesson): bool {
    a.order.None? || (b.order.Some? && a.order.value <= b.order.value)
  }

  /** `orderBy('title')`, by character code. */
  function TitleLe(a: string, b: string): bool {
    if |a| == 0 then true
    else if |b| == 0 then false
    else if a[0] != b[0] then a[0] < b[0]
    else TitleLe(a[1..], b[1..])
  }

  function CourseTitleLe(a: Course, b: Course): bool {
    TitleLe(a.title, b.title)
  }

  lemma LessonOrderIsTotalPreorder()
    ensures TotalPreorder(LessonOrderLe)
  {
  }

  lemma {:induction false} TitleLeTotal(a: string, b: string)
    ensures TitleLe(a, b) || TitleLe(b, a)
  {
    if |a| > 0 && |b| > 0 && a[0] == b[0] {
      TitleLeTotal(a[1..], b[1..]);
    }
  }

  lemma {:induction false} TitleLeTransitive(a: string, b: string, c: string)
    requires TitleLe(a, b) && TitleLe(b, c)
    ensures TitleLe(a, c)
  {
    if |a| > 0 && |b| > 0 && |c| > 0 && a[0] == b[0] && b[0] == c[0] {
      TitleLeTransitive(a[1..], b[1..], c[1..]);
    }
  }

  lemma CourseTitleIsTotalPreorder()
    ensures TotalPreorder(CourseTitleLe)
  {
    forall a: Course, b: Course ensures CourseTitleLe(a, b) || CourseTitleLe(b, a) {
      TitleLeTotal(a.title, b.title);
    }
    forall a: Course, b: Course, c: Course | CourseTitleLe(a, b) && CourseTitleLe(b, c)
      ensures CourseTitleLe(a, c)
    {
      TitleLeTransitive(a.title, b.title, c.title);
    }
  }

  /** Filtering a sorted list keeps it sorted. */
  lemma {:induction false} WhereKeepsSorted<T>(s: seq<T>, p: T -> bool, le: (T, T) -> bool)
    requires Sorted(s, le)
    ensures Sorted(Where(s, p), le)
  {
    if |s| > 0 {
      var tail := s[1..];
      assert Sorted(tail, le) by {
        forall i, j | 0 <= i < j < |tail| ensures le(tail[i], tail[j]) {
          assert tail[i] == s[i + 1] && tail[j] == s[j + 1];
        }
      }
      WhereKeepsSorted(tail, p, le);
      var w := Where(tail, p);
      if p(s[0]) {
        var r := [s[0]] + w;
        assert Where(s, p) == r;
        forall j | 0 <= j < |w| ensures le(s[0], w[j]) {
          var k :| 0 <= k < |tail| && tail[k] == w[j];
          assert tail[k] == s[k + 1];
        }
        forall i, j | 0 <= i < j < |r| ensures le(r[i], r[j]) {
          if i > 0 {
            assert r[i] == w[i - 1] && r[j] == w[j - 1];
          } else {
            assert r[j] == w[j - 1];
          }
        }
      } else {
        assert Where(s, p) == w;
      }
    }
  }
}
