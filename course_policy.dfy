/** The course policy: four yes/no questions about a user and a course. */
module CoursePolicy {
  import opened Domain

  /** Published courses are visible to anyone; unpublished ones to their instructor. */
  predicate View(user: User, course: Course) {
    course.isPublished || user.id == course.instructorId
  }

  predicate Create(user: User) {
    user.role == Instructor
  }

  predicate Update(user: User, course: Course) {
    user.id == course.instructorId
  }

  predicate Delete(user: User, course: Course) {
    user.id == course.instructorId
  }

  /** `view` admits exactly the published courses and the user's own; a user's
      role, admin included, changes nothing. */
  lemma ViewIgnoresRole(user: User, course: Course, role: Role)
    ensures View(user, course) <==> course.isPublished || user.id == course.instructorId
    ensures View(user.(role := role), course) == View(user, course)
  {
  }

  /** Only instructors may create; admins and students may not. */
  lemma CreateOnlyInstructors(user: User)
    ensures Create(user) <==> user.role == Instructor
    ensures !Create(user.(role := Admin)) && !Create(user.(role := Student))
  {
  }

  /** `update` is ownership alone, whatever the role. */
  lemma UpdateIsOwnership(user: User, course: Course, role: Role)
    ensures Update(user, course) <==> user.id == course.instructorId
    ensures Update(user.(role := role), course) == Update(user, course)
  {
  }

  /** `delete` and `update` agree on every user and course. */
  lemma DeleteAgreesWithUpdate(user: User, course: Course)
    ensures Delete(user, course) == Update(user, course)
  {
  }

  /** An owner may always view, even an unpublished course. */
  lemma UpdateImpliesView(user: User, course: Course)
    requires Update(user, course)
    ensures View(user, course)
  {
  }
}
