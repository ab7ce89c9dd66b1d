/** The `student` route middleware. */
module EnsureUserIsStudent {
  import opened Domain
  import EnsureUserIsInstructor

  const Message := "Only students can access this page."

  /** Let the request through to `next` only for a signed-in student. */
  function Handle<Req, Resp>(p: Principal, request: Req, next: Req -> Resp): (r: Handled<Resp>)
    ensures r.Passed? <==> p.SignedIn? && p.role == Student
    ensures r.Passed? ==> r.response == next(request)
    ensures r.Aborted? ==> r == Aborted(403, Message)
  {
    if p.Guest? || p.role != Student then Aborted(403, Message)
    else Passed(next(request))
  }

  /** No principal passes both the instructor and the student guard, and an
      admin passes neither. */
  lemma GuardsExclusive<Req, Resp>(p: Principal, request: Req, next: Req -> Resp)
    ensures !(Handle(p, request, next).Passed? && EnsureUserIsInstructor.Handle(p, request, next).Passed?)
    ensures p.SignedIn? && p.role == Admin ==>
      Handle(p, request, next).Aborted? && EnsureUserIsInstructor.Handle(p, request, next).Aborted?
  {
  }
}
