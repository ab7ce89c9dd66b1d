# SproutLMS core, modelled in Dafny

SproutLMS is a small Laravel learning-management system. Instructors own
courses and write lessons and assignments. Students enroll in courses, view
lessons (which records their completion), submit assignments and see their
progress. Admins manage the student accounts.

This project models the request handling of that core:

- the route table with its middleware groups (`auth`, `admin`, `instructor`,
  `student`);
- the course policy and the two role middlewares;
- every routed action of the course, lesson, assignment, submission,
  enrollment, dashboard and admin controllers;
- the figures and choices the lesson page, the two student pages and the
  admin's student page compute.

The database is a class `Database.Db` whose tables are sequences in insertion
order. `Db.Valid()` says that ids are unique and below the id counter, and
that (student, course), (assignment, student) and (student, lesson) pairs are
unique. Every state-changing action is a method on a `Db`. Its `ensures`
gives the decision (refused, invalid form, failed check, or success with the
exact new table) and shows that `Valid()` is kept. Pages are functions that
return `Denied(decision)`, `Crashed` (a server error the view would raise) or
`Shown(page)`.

One function decides whether a request may proceed:
`Authorization.Decide(principal, action, target)`. It applies, in order:

1. `auth`, which sends a guest to the login page;
2. implicit route-model binding, which answers 404 for a missing row;
3. the route's role guard;
4. the inline checks each controller writes before it acts.

Request input is a `Field` per form key:

- `Absent`: the key was not sent;
- `Blank`: empty, which the framework turns into null;
- `Malformed`: a value of the wrong type;
- `Filled(v)`: a usable value.

Library behaviour the code calls but does not define is passed in as a
`Foreign` record of functions: email and URL format, `Password::defaults()`
and `Hash::make`. The request time `now()` is a parameter.

## Model

| member | source | states |
|---|---|---|
| CoursePolicy.ViewIgnoresRole | app/Policies/CoursePolicy.php:10-14 | `view` admits exactly published courses and the user's own; changing the user's role never changes the answer |
| CoursePolicy.CreateOnlyInstructors | app/Policies/CoursePolicy.php:16-19 | `create` holds exactly for instructors; an admin or a student is refused |
| CoursePolicy.UpdateIsOwnership | app/Policies/CoursePolicy.php:21-24 | `update` holds exactly when the user owns the course, whatever the role |
| CoursePolicy.DeleteAgreesWithUpdate | app/Policies/CoursePolicy.php:21-29 | `delete` and `update` give the same answer on every user and course |
| CoursePolicy.UpdateImpliesView | app/Policies/CoursePolicy.php:10-24 | whoever may update a course may also view it, even unpublished |
| EnsureUserIsInstructor.Handle | app/Http/Middleware/EnsureUserIsInstructor.php:16-23 | the request reaches `next` exactly for a signed-in instructor; every other principal gets 403 with the instructor message |
| EnsureUserIsStudent.Handle | app/Http/Middleware/EnsureUserIsStudent.php:16-23 | the request reaches `next` exactly for a signed-in student; every other principal gets 403 with the student message |
| EnsureUserIsStudent.GuardsExclusive | app/Http/Middleware/EnsureUserIsStudent.php:18-20 | no principal passes both the student and the instructor guard; an admin passes neither |
| Routes.RoleGuardDecision | routes/web.php:53-118 | a role guard either lets the request on or answers 403 |
| Routes.RoleGuardsByRole | routes/web.php:53-118 | the admin, instructor and student guards admit a signed-in user exactly when the role matches, with each middleware's own message |
| Routes.LessonRoutes | routes/web.php:77-86 | lesson management sits behind the instructor guard; viewing a lesson needs only `auth` |
| Routes.AssignmentRoutes | routes/web.php:90-100 | the assignment list and assignment management need the instructor guard; viewing one assignment needs only `auth` |
| Routes.SubmissionRoutes | routes/web.php:103-110 | submitting needs the student guard, grading the instructor guard |
| Routes.EnrollmentRoutes | routes/web.php:114-118 | enrolling, unenrolling and the enrollment list need the student guard |
| Routes.AdminRoutes | routes/web.php:53-64 | a route needs the admin guard exactly when it is an `admin.*` route |
| Routes.CourseRoutes | routes/web.php:67-72 | the course list, create, store, edit, update and destroy need `auth` and no role |
| Routes.PublicRoutes | routes/web.php:45 | browsing and showing a course are the only routes without `auth` |
| Requests.CourseTargetBinding | routes/web.php:75 | the `{course}` binding is found exactly when a course row has the route's id, and is then such a row; `enrolled` holds exactly when the user is signed in and an enrollment row pairs them with that course; no student is bound |
| Authorization.AllowNeedsGuardAndCheck | routes/web.php:48-118 | an allowed request was signed in (unless public), bound every model, passed the role guard and passed the controller's inline check |
| Authorization.GuestOnlyPublic | routes/web.php:45-122 | a guest is sent to the login page on every non-public route, so a guest reaches only browse and show |
| Authorization.CourseManagementIsOwnership | app/Http/Controllers/CourseController.php:73-107 | for an existing course, edit, update and destroy are allowed exactly for its owner, whatever the role; this agrees with the policy's `update`, and anyone else gets 403 |
| Authorization.LessonShowAccess | app/Http/Controllers/LessonController.php:55-70 | a student is allowed exactly when enrolled, and otherwise redirected with the enroll message; any other role must own the course, or gets 403 |
| Authorization.LessonManagementAccess | app/Http/Controllers/LessonController.php:23-133 | lesson create/store/edit/update/destroy are allowed exactly for the instructor who owns the course; any other role gets the instructor guard's 403 |
| Authorization.AssignmentIndexRefusesAdmins | app/Http/Controllers/AssignmentController.php:14-17 | the controller would let an admin list any course's assignments, but the instructor guard in front of it refuses every admin |
| Authorization.AssignmentManagementAccess | app/Http/Controllers/AssignmentController.php:27-143 | assignment create/store/edit/update/destroy are allowed exactly for the instructor who owns the course |
| Authorization.AssignmentShowAccess | app/Http/Controllers/AssignmentController.php:59-78 | viewing an assignment is allowed exactly for an admin, the owning instructor, or an enrolled student |
| Authorization.SubmitAccess | app/Http/Controllers/AssignmentSubmissionController.php:15-28 | a non-student is refused by the guard; a student is allowed exactly when enrolled, else redirected with the enrollment message |
| Authorization.GradeAccess | app/Http/Controllers/AssignmentSubmissionController.php:59-62 | grading is allowed exactly for the instructor who owns the route's course |
| Authorization.EnrollmentAccess | app/Http/Controllers/EnrollmentController.php:24-61 | enrolling, unenrolling and the list are allowed exactly for students, and whether the course is published makes no difference |
| Authorization.AdminMemberMustBeStudent | app/Http/Controllers/AdminController.php:54-58 | on a `{student}` route an admin gets 404 unless the bound user is a student; every other role gets 403 |
| Authorization.StudentsManageNothing | routes/web.php:53-110 | a student is never allowed lesson or assignment management, grading, or any admin route |
| CourseController.Index | app/Http/Controllers/CourseController.php:12-20 | a guest is sent to login; every signed-in user is shown the page, listing exactly the courses that user owns, both ways |
| CourseController.Browse | app/Http/Controllers/CourseController.php:22-31 | never refused; fails exactly when a published course's instructor row is gone (the view prints the name at resources/views/courses/browse.blade.php:17); otherwise lists exactly the published courses, both ways |
| CourseController.Show | app/Http/Controllers/CourseController.php:57-71 | 404 exactly when the course does not exist; fails exactly when its instructor row is gone (resources/views/courses/show.blade.php:23); otherwise the course, its instructor, its lessons in `order` order, and `isEnrolled` exactly for an enrolled student |
| CourseController.ShowIgnoresPublication | app/Http/Controllers/CourseController.php:57-71 | flipping a course's published flag never makes its page refused, leaves it failing exactly when it failed before, and otherwise keeps the same instructor, lessons and enrollment flag |
| CourseController.AnyoneSignedInMayCreate | app/Http/Controllers/CourseController.php:33-55 | every signed-in role, student and admin included, may open the form and store a course |
| CourseController.CourseLifecycle | app/Http/Controllers/CourseController.php:46-52 | a new course is unpublished, owned by its creator and titled from the form; an update keeps id and owner, sets the flag only when sent, and is idempotent |
| CourseController.Store | app/Http/Controllers/CourseController.php:38-55 | refused, invalid or success; on success exactly one new course with a fresh id from the shared counter is appended and the tables stay valid |
| CourseController.Edit | app/Http/Controllers/CourseController.php:73-79 | the form is shown exactly to the owner of an existing course, with that course |
| CourseController.Update | app/Http/Controllers/CourseController.php:81-97 | refused, invalid or success; on success exactly the course's row is replaced by the updated course |
| CourseController.Destroy | app/Http/Controllers/CourseController.php:99-107 | refused or success; on success exactly the course's row is removed and no row with its id remains |
| Lessons.OrderedLessons | app/Http/Controllers/LessonController.php:73 | the ordered list is a permutation of the course's lessons, sorted by `order` with null first |
| Lessons.MaxOrder | app/Http/Controllers/LessonController.php:45 | null exactly when no lesson has an order; otherwise an order some lesson has, and no order is larger |
| Lessons.DefaultOrderSortsLast | app/Http/Controllers/LessonController.php:45-46 | the default order is above every order in the course, and 1 when none has one, so such a lesson sorts after all others |
| Lessons.Adjacent | app/Http/Controllers/LessonController.php:74-79 | the neighbours exist exactly when the course's list is not empty |
| Lessons.AdjacentInList | app/Http/Controllers/LessonController.php:74-79 | for a lesson in the list, the previous one is the element before it and is absent exactly at the start; the next one likewise at the end |
| Lessons.NeighboursInOrder | app/Http/Controllers/LessonController.php:73-79 | the neighbours belong to the course, the previous ordered no later and the next no earlier than the current lesson |
| Lessons.AdjacentNotInList | app/Http/Controllers/LessonController.php:74-79 | for a lesson of another course, `search` gives false: there is no previous lesson, and the next is the list's second |
| Sorting.SortBy | app/Http/Controllers/LessonController.php:73 | the result is a permutation of the input, of the same length, and sorted |
| Sorting.LessonOrderIsTotalPreorder | app/Http/Controllers/LessonController.php:73 | `orderBy('order')` with null first is a total preorder |
| Sorting.CourseTitleIsTotalPreorder | resources/views/admin/students/show.blade.php:47 | `orderBy('title')` by character code is a total preorder |
| LessonController.NewLessonPlacement | app/Http/Controllers/LessonController.php:45-48 | a stored lesson has the given id, course, title and type; a sent order is kept; without one its order exceeds every order in the course |
| LessonController.StoredWithoutOrderComesLast | app/Http/Controllers/LessonController.php:45-48 | a lesson stored without an order comes last in its course's ordered list |
| LessonController.UpdateKeepsIdentity | app/Http/Controllers/LessonController.php:106-120 | updating keeps id and course; sending the same form twice changes nothing more; a blank order sorts first; an absent order is kept |
| LessonController.Create | app/Http/Controllers/LessonController.php:23-29 | the form is shown exactly to the instructor owning the existing course |
| LessonController.Edit | app/Http/Controllers/LessonController.php:98-104 | the form is shown exactly to the owning instructor when the lesson exists anywhere in the table; a missing lesson is refused |
| LessonController.BlankVideoUrl | app/Http/Controllers/LessonController.php:41 | a video URL that is empty once trimmed passes exactly for a text lesson, whatever the URL check says; any other URL passes exactly when well formed |
| LessonController.Store | app/Http/Controllers/LessonController.php:31-51 | refused, invalid or success; on success exactly one lesson with a fresh id from the shared counter and default order is appended |
| LessonController.Update | app/Http/Controllers/LessonController.php:106-123 | refused, invalid or success; on success exactly the lesson's row is replaced by the updated lesson |
| LessonController.Destroy | app/Http/Controllers/LessonController.php:125-133 | refused or success; on success exactly the lesson's row is removed and its id is gone |
| LessonController.LessonView | app/Http/Controllers/LessonController.php:72-79 | a server error exactly when the course has no lessons (`$allLessons[$currentIndex + 1]` reads a missing key at line 79); otherwise the edit link, the video block, the content flag and the neighbours as resources/views/lessons/show.blade.php:14-101 computes them |
| LessonController.ShowResult | app/Http/Controllers/LessonController.php:53-96 | refused exactly when `Decide` refuses, with its decision; otherwise the lesson page of the route's course and lesson |
| LessonController.Show | app/Http/Controllers/LessonController.php:81-95 | the page is `ShowResult`; the progress row is written exactly when the page is shown to a student |
| LessonController.RecordCompletion | app/Http/Controllers/LessonController.php:83-92 | the progress table becomes the upsert of the completed row, and stays valid |
| LessonController.ShownOnlyToMembers | app/Http/Controllers/LessonController.php:55-93 | an allowed view has an existing course and lesson, comes from an enrolled student or the course's owner, and leaves a student exactly one progress row for the lesson |
| VideoEmbed.Search | resources/views/lessons/show.blade.php:33 | `preg_match` finds the leftmost start and first alternative that match, with the greedy run as group; none exactly when nothing matches anywhere |
| VideoEmbed.VideoId | resources/views/lessons/show.blade.php:32-35 | the id is made of the class's characters, and is empty exactly when the pattern matches nowhere |
| VideoEmbed.BlockNeedsVideoUrl | resources/views/lessons/show.blade.php:27 | a video block appears exactly for a video lesson with a truthy URL |
| VideoEmbed.YouTubeBranch | resources/views/lessons/show.blade.php:30-43 | a YouTube URL gives the player for its id, or the link exactly when the id is empty or "0" |
| VideoEmbed.VimeoBranch | resources/views/lessons/show.blade.php:44-57 | a Vimeo URL without a YouTube host gives the player for its digits, or the link exactly when the id is falsy |
| VideoEmbed.OtherUrls | resources/views/lessons/show.blade.php:58-63 | any other truthy URL gives the "Watch Video" link |
| VideoEmbed.ShortLinkExample | resources/views/lessons/show.blade.php:33 | a short link's id runs up to the first character outside `[a-zA-Z0-9_-]` |
| CourseProgress.MarkCompletedRecordsOnce | app/Http/Controllers/LessonController.php:83-92 | after `updateOrCreate` the pair has exactly one row, completed at the view's time, and pairs stay unique |
| CourseProgress.MarkCompletedTwice | app/Http/Controllers/LessonController.php:83-92 | viewing twice leaves what the later view alone leaves, and the second view adds no row |
| CourseProgress.Percent | resources/views/enrollments/index.blade.php:19 | 0 without lessons; otherwise the integer nearest to completed/total·100, halves rounded up |
| CourseProgress.PercentBounded | resources/views/enrollments/index.blade.php:19 | with no more completed than total the percentage is at most 100 |
| CourseProgress.PercentEnds | resources/views/enrollments/index.blade.php:19 | all lessons completed gives 100 (0 without lessons); none completed gives 0 |
| CourseProgress.StatsBounded | resources/views/enrollments/index.blade.php:12-20 | a card counts no more completed lessons than the course has, nor more than the student's overall figure, and shows at most 100 |
| CourseProgress.AllCompletedIsFull | resources/views/enrollments/index.blade.php:12-20 | when every lesson of the course has a completed row, the card shows all completed, and 100 if there are lessons |
| CourseProgress.NoneCompletedIsZero | resources/views/enrollments/index.blade.php:12-20 | a student with no completed rows sees 0 completed and 0 percent on every card |
| CourseCards.CardOf | resources/views/enrollments/index.blade.php:12-20 | the card of an enrollment row holds its course and that course's figures, and fails exactly when the course row is gone |
| CourseCards.Cards | resources/views/enrollments/index.blade.php:11-42 | one card per enrollment row, in order; the page fails exactly when some row's course is gone |
| CourseCards.CardsBounded | resources/views/enrollments/index.blade.php:12-42 | every card shows at most 100, at most the course's total and at most the student's overall completed lessons |
| CourseCards.CardsNameDistinctCourses | app/Http/Controllers/EnrollmentController.php:26-40 | a student's enrollment rows are all the student's and name distinct courses |
| Enrollments.EnrollmentOf | app/Http/Controllers/EnrollmentController.php:27-29 | the first row of the (student, course) pair, and none exactly when no row has it |
| Enrollments.EnrollAddsThePair | app/Http/Controllers/EnrollmentController.php:26-40 | enrolling a new pair leaves it in exactly one row, every other pair unchanged, and pairs unique |
| Enrollments.UnenrollRemovesThePair | app/Http/Controllers/EnrollmentController.php:48-53 | unenrolling removes the pair, leaves every other pair unchanged, and keeps pairs unique |
| Enrollments.EnrollThenUnenroll | app/Http/Controllers/EnrollmentController.php:24-61 | enrolling then unenrolling the same pair gives the original table back |
| EnrollmentController.Index | app/Http/Controllers/EnrollmentController.php:12-22 | shown exactly to students; a failure exactly when a card fails; otherwise the student's cards |
| EnrollmentController.Store | app/Http/Controllers/EnrollmentController.php:24-44 | refused, already enrolled with the table unchanged, or the new row appended, published course or not |
| EnrollmentController.Destroy | app/Http/Controllers/EnrollmentController.php:46-61 | refused, "not found" with the table unchanged, or the pair's row removed so the student is no longer enrolled |
| Submissions.SubmissionOf | app/Http/Controllers/AssignmentSubmissionController.php:31-33 | the first row of the (assignment, student) pair, and none exactly when no row has it |
| Submissions.SubmitAddsThePair | app/Http/Controllers/AssignmentSubmissionController.php:31-51 | inserting a new pair keeps pairs unique, and the pair is found in exactly one row, the new last row |
| Submissions.GradingKeepsTheWork | app/Http/Controllers/AssignmentSubmissionController.php:69-74 | grading writes grade, feedback, grader and time, and keeps the work, its author, its assignment and its id |
| Submissions.RegradeOverwrites | app/Http/Controllers/AssignmentSubmissionController.php:69-74 | the second grading alone decides the graded row |
| Submissions.GradeKeepsKeys | app/Http/Controllers/AssignmentSubmissionController.php:69-74 | grading a row in place keeps ids and pairs unique |
| AssignmentSubmissionController.Store | app/Http/Controllers/AssignmentSubmissionController.php:13-55 | checks in order role and enrollment, an existing submission, then the form; on success exactly one ungraded row with a fresh id from the shared counter is appended |
| AssignmentSubmissionController.SecondSubmitFails | app/Http/Controllers/AssignmentSubmissionController.php:31-38 | after a first submission the pair is found, so a second submit takes the error branch; the one row is ungraded and stamped with the request's time |
| AssignmentSubmissionController.Update | app/Http/Controllers/AssignmentSubmissionController.php:57-79 | refused, invalid grade, or exactly the route's submission row replaced by its graded version |
| AssignmentSubmissionController.GradeWithinMaximum | app/Http/Controllers/AssignmentSubmissionController.php:64-74 | a grade that passes the rules for a maximum score lies between 0 and that maximum, names its grader and time, and has feedback exactly when feedback was sent |
| AssignmentSubmissionController.ForeignSubmissionIsGradable | app/Http/Controllers/AssignmentSubmissionController.php:57-62 | the owner of the route's course is allowed to grade through an assignment that belongs to another course: the binding is not scoped |
| AssignmentController.Index | app/Http/Controllers/AssignmentController.php:12-25 | shown exactly to the instructor owning the course; lists exactly the course's assignments, both ways |
| AssignmentController.UpdateRulesAreLaxer | app/Http/Controllers/AssignmentController.php:44-49 | every form `store` accepts, `update` accepts; what only `update` accepts is a due date not after now |
| AssignmentController.AssignmentBounds | app/Http/Controllers/AssignmentController.php:44-51 | a stored assignment has a score in 1..1000 and is due after its creation or never; updating keeps id, course and the score bound |
| AssignmentController.PastDueDateExample | app/Http/Controllers/AssignmentController.php:119-124 | a past due date passes `update` and fails `store` |
| AssignmentController.Create | app/Http/Controllers/AssignmentController.php:27-35 | the form is shown exactly to the instructor owning the existing course |
| AssignmentController.Edit | app/Http/Controllers/AssignmentController.php:102-110 | the form is shown exactly to the owning instructor when the assignment exists anywhere in the table, with that assignment |
| AssignmentController.Store | app/Http/Controllers/AssignmentController.php:37-55 | refused, invalid or success; on success exactly one assignment with a fresh id from the shared counter is appended |
| AssignmentController.Update | app/Http/Controllers/AssignmentController.php:112-130 | refused, invalid or success; on success exactly the assignment's row is replaced by its updated version |
| AssignmentController.Destroy | app/Http/Controllers/AssignmentController.php:132-143 | refused or success; on success exactly the assignment's row is removed and its id is gone |
| AssignmentController.Show | app/Http/Controllers/AssignmentController.php:57-100 | refused exactly when `Decide` refuses; for a non-student the page fails exactly when a submission to the assignment has no student row (resources/views/assignments/show.blade.php:124-125); non-students see exactly the assignment's submissions, both ways; a student sees no list, only the own submission |
| AssignmentController.StudentSeesOwnSubmissionOnly | app/Http/Controllers/AssignmentController.php:67-97 | a student who sees the page is enrolled, sees no submission list, and the submission shown is the student's own |
| DashboardController.Summaries | resources/views/dashboard/instructor.blade.php:78-79 | one summary per own course, with that course's lesson count and enrollment count |
| DashboardController.OwnCourseIds | app/Http/Controllers/DashboardController.php:17-23 | a course id is among the plucked own-course ids exactly when the instructor teaches that course |
| DashboardController.TotalStudentsAreStudentsTaught | app/Http/Controllers/DashboardController.php:23 | the distinct count equals the number of students with an enrollment in a course the instructor owns |
| DashboardController.Index | app/Http/Controllers/DashboardController.php:12-40 | a guest goes to login; an instructor sees the summaries of exactly the own courses, each with its lesson and enrollment counts, the distinct students taught and the published count; every other role gets the student dashboard |
| DashboardController.CourseEnrollmentsWithinTotal | resources/views/dashboard/instructor.blade.php:31-79 | under unique pairs no own course shows more enrollments than the total of distinct students |
| DashboardController.StudentDashboardMatchesEnrollmentList | resources/views/dashboard/student.blade.php:17-60 | the student dashboard shows the same cards as the enrollment list, and no card's completed count exceeds the overall figure |
| AdminController.Index | app/Http/Controllers/AdminController.php:17-36 | shown exactly to admins; the student and instructor counts, the course and enrollment totals, and the last ten students in reverse table order |
| AdminController.RoleCountsPartitionUsers | app/Http/Controllers/AdminController.php:19-20 | the student, instructor and admin counts add up to the number of users |
| AdminController.WithEnrollmentCounts | app/Http/Controllers/AdminController.php:43-44 | one row per student, in order, with the number of that student's enrollment rows |
| AdminController.StudentList | app/Http/Controllers/AdminController.php:41-49 | shown exactly to admins; every student occurs and every row is a student with its enrollment count |
| AdminController.EnrollmentCountIsDistinctCourses | app/Http/Controllers/AdminController.php:43-44 | under unique pairs a student's enrollment count is the number of distinct courses |
| AdminController.Enrollable | resources/views/admin/students/show.blade.php:47-49 | sorted by title; a course is offered exactly when it is published and none of the student's rows names it |
| AdminController.ShowStudent | app/Http/Controllers/AdminController.php:54-72 | refused unless an admin looks at an existing student; otherwise the student's count, completed lessons, choices and cards |
| AdminController.StudentPageIsTheStudents | app/Http/Controllers/AdminController.php:60-69 | which admin looks makes no difference, and the cards equal the student's own enrollment list |
| AdminController.CreateStudent | app/Http/Controllers/AdminController.php:77-80 | the form is shown exactly to admins |
| AdminController.StudentRecords | app/Http/Controllers/AdminController.php:93-140 | a new user is a student with the form's name, email and hashed password; an update keeps id and role, and changes the hash only for a non-empty password |
| AdminController.StoreKeepsEmailsUnique | app/Http/Controllers/AdminController.php:87-98 | a store that passes validation keeps emails unique |
| AdminController.UpdateKeepsEmailsUnique | app/Http/Controllers/AdminController.php:125-140 | an update that passes validation keeps emails unique |
| AdminController.StoreStudent | app/Http/Controllers/AdminController.php:85-102 | refused, invalid (among others a missing password, or one that is empty once trimmed) or success; on success exactly one student with a fresh id from the shared counter is appended |
| AdminController.BlankPassword | app/Http/Controllers/AdminController.php:90-138 | a password made only of whitespace fails `required` on store; on update it skips the confirmation and strength rules and, being non-empty, is hashed and stored |
| AdminController.EditStudent | app/Http/Controllers/AdminController.php:107-114 | the form is shown exactly to admins for an existing student, with that user |
| AdminController.UpdateStudent | app/Http/Controllers/AdminController.php:119-144 | refused, invalid or success; on success exactly the student's row is replaced by its updated version |
| AdminController.DestroyStudent | app/Http/Controllers/AdminController.php:149-159 | refused or success; on success exactly the student's row is removed and its id is gone |
| AdminController.EnrollStudent | app/Http/Controllers/AdminController.php:164-192 | refused, invalid course, already enrolled with the table unchanged, or the new row appended |
| AdminController.UnenrollStudent | app/Http/Controllers/AdminController.php:197-215 | refused, "not found" with the table unchanged, or the pair's row removed |
| Validation.BlankIffAllTrimmed | app/Http/Controllers/AdminController.php:88-90 | `trim` leaves nothing exactly when every character is one PHP's `trim` strips, the test `required` applies |
| Validation.RequiredRejectsBlank | app/Http/Controllers/AdminController.php:88-90 | a value passing `required` is non-empty, and a sent string passes exactly when it has a character `trim` keeps |
| Validation.LessonTypeOf | app/Http/Controllers/LessonController.php:40 | `in:text,video` accepts exactly "text" and "video" |

## Left out

- Pagination: the admin's student list (`paginate(20)`) is modelled as one page holding every student.
- `latest()` order: listings keep table (creation) order. The admin overview's ten newest students are the one place the model reverses the order.
- `withCount('submissions')` on the assignment list and the counts on the instructor's own course list are not modelled. The instructor dashboard's counts are modelled.
- `decimal:2` on grades and floating-point `round`: the grade is a real number. The percentage uses exact integer arithmetic that rounds halves up.
- `Foreign` record: email format, URL format, `Password::defaults()` and `Hash::make` are library calls the code does not define, so they are parameters.
- The `TrimStrings` middleware is not modelled: strings are taken and stored as sent, so a padded title keeps its spaces. The validator's own trim is modelled: `required` fails on a string that is empty once trimmed, and the other rules skip such a string.
- Cascading deletes come from the migrations, which are not part of this model. Deleting a row leaves the rows that point at it. A page that prints a field of such a missing row is modelled as failing (`Crashed`).
- Ids: one counter `nextId` serves the users, courses, lessons, assignments and submissions tables. The database keeps one auto-increment per table, so the concrete id values differ. No contract depends on the values beyond their being fresh.
- Concurrency: each request runs alone, so two requests cannot both pass the uniqueness check.
- The `admin` middleware class is not part of this model. It is taken to admit exactly admins and to answer 403 to everyone else.
- Title order compares character codes. The database's collation (case folding, accents) is not modelled.
- The tie order among lessons with equal `order` is whatever the sort gives. SQL does not fix it either.
- `LessonController.index` has no route in routes/web.php, so it cannot be reached and is not modelled.
- Email uniqueness compares exact strings. Case-insensitive collation is not modelled.
- `Malformed` input stands for every wrongly typed field; the individual type rules are not told apart. Integer, number, date and boolean fields arrive already parsed, and one sent as whitespace only counts as `Blank`, so the validator skipping its type rule needs no separate case.
- User.php and Course.php are not part of this model. Their `enrollments` and `lessons` relations are taken to be keyed on `student_id` and `course_id`.
- Markup, styling, flash-message rendering, the landing page, the profile routes and the authentication pages are not modelled.
- AssignmentSubmissionController.Update: the route binds the assignment and the submission without scoping, as the code does. ForeignSubmissionIsGradable states this; no scoped variant is claimed.
- LessonController.ShowResult: a lesson of another course is shown under the route's course, as the code does, with the neighbours PHP's `search() === false` comparison gives.
