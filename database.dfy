/** The database the controllers read and write: one sequence of rows per
    table, in insertion order, and the auto-increment counter. */
module Database {
  import opened Domain
  import opened Query

  /** A table with an auto-increment primary key: ids are unique and below the
      counter, so the next id is fresh. */
  ghost predicate IdTable<T>(rows: seq<T>, key: T -> Id, next: Id) {
    UniqueBy(rows, key) && KeysBelow(rows, key, next)
  }

  class Db {
    var users: seq<User>
    var courses: seq<Course>
    var lessons: seq<Lesson>
    var assignments: seq<Assignment>
    var enrollments: seq<Enrollment>
    var submissions: seq<Submission>
    var progress: seq<Progress>
    /** The next auto-increment id; one counter serves every id table. */
    var nextId: Id

    /** Primary keys are unique and fresh, and the pairs the controllers check
        before inserting occur at most once. */
    ghost predicate Valid()
      reads this
    {
      && IdTable(users, UserKey, nextId)
      && IdTable(courses, CourseKey, nextId)
      && IdTable(lessons, LessonKey, nextId)
      && IdTable(assignments, AssignmentKey, nextId)
      && IdTable(submissions, SubmissionKey, nextId)
      && UniqueBy(enrollments, EnrollmentPair)
      && UniqueBy(submissions, SubmissionPair)
      && UniqueBy(progress, ProgressPair)
    }

    /** An empty database; ids start at 1. */
    constructor ()
      ensures Valid()
      ensures users == [] && courses == [] && lessons == [] && assignments == []
      ensures enrollments == [] && submissions == [] && progress == []
      ensures nextId == 1
    {
      users := [];
      courses := [];
      lessons := [];
      assignments := [];
      enrollments := [];
      submissions := [];
      progress := [];
      nextId := 1;
    }

    /** Draws the id of the next inserted row. Every table stays valid. */
    method NewId() returns (id: Id)
      requires Valid()
      modifies this`nextId
      ensures Valid()
      ensures id == old(nextId) && nextId == id + 1
    {
      id := nextId;
      nextId := nextId + 1;
    }
  }

  /** Inserting a row that carries the fresh id keeps the table valid once the
      counter has moved past it. */
  lemma InsertFresh<T>(rows: seq<T>, key: T -> Id, next: Id, v: T)
    requires IdTable(rows, key, next) && key(v) == next
    ensures IdTable(rows + [v], key, next + 1)
  {
    AppendKeepsUnique(rows, key, v);
  }

  /** Replacing a row by one with the same id keeps the table valid. */
  lemma ReplaceKeepsTable<T>(rows: seq<T>, key: T -> Id, next: Id, i: nat, v: T)
    requires IdTable(rows, key, next) && i < |rows| && key(v) == key(rows[i])
    ensures IdTable(rows[i := v], key, next)
  {
    ReplaceKeepsUnique(rows, key, i, v);
  }

  /** Deleting a row keeps the table valid and its id gone. */
  lemma RemoveKeepsTable<T>(rows: seq<T>, key: T -> Id, next: Id, i: nat)
    requires IdTable(rows, key, next) && i < |rows|
    ensures IdTable(RemoveAt(rows, i), key, next)
    ensures Find(RemoveAt(rows, i), key, key(rows[i])).None?
  {
    RemoveAtKeys(rows, key, i);
  }
}
