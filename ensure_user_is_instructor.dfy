/** The `instructor` route middleware. */
module EnsureUserIsInstructor {
  import opened Domain

  const Message := "Only instructors can access this page."

  /** Let the request through to `next` only for a signed-in instructor. */
  function Handle<Req, Resp>(p: Principal, request: Req, next: Req -> Resp): (r: Handled<Resp>)
    ensures r.Passed? <==> p.SignedIn? && p.role == Instructor
    ensures r.Passed? ==> r.response == next(request)
    ensures r.Aborted? ==> r == Aborted(403, Message)
  {
    if p.Guest? || p.role != Instructor then Aborted(403, Message)
    else Passed(next(request))
  }
}
