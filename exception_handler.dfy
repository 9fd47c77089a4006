/** The exception handler that turns what an operation threw into an HTTP
    problem response: the response status code, the problem body (its title
    and its own Status field), and whether the exception is logged. Writing
    the JSON body and the logging itself are left out. */
module ExceptionToProblemDetailsHandler {
  import opened Common

  const UnhandledTitle: string := "Unhandled exception during request occurred"

  /** The `ProblemDetails` body. */
  datatype ProblemDetails = ProblemDetails(title: string, status: int)

  /** What `TryHandleAsync` does with the response: the status code it sets,
      the body it writes, whether it logs, and the value it returns. */
  datatype Handling = Handling(statusCode: int, body: ProblemDetails, logged: bool, handled: bool)

  /** `TryHandleAsync` as written. A rejected input answers 400 but writes
      403 (Forbidden) into the body; access denied answers 403/403; not found
      404/404; anything else 500/500 with a fixed title, and is logged. */
  function TryHandle(e: Error): (h: Handling)
    ensures h.handled
    ensures h.logged <==> e.Unhandled?
    ensures e.IsDomainError() ==> h.body.title == e.message
    ensures e.Unhandled? ==> h.body.title == UnhandledTitle
    ensures e.InvalidInput? ==> h.statusCode == 400 && h.body.status == 403
    ensures e.AccessDenied? ==> h.statusCode == 403 && h.body.status == 403
    ensures e.NotFound? ==> h.statusCode == 404 && h.body.status == 404
    ensures e.Unhandled? ==> h.statusCode == 500 && h.body.status == 500
  {
    match e
    case InvalidInput(message) => Handling(400, ProblemDetails(message, 403), false, true)
    case AccessDenied(message) => Handling(403, ProblemDetails(message, 403), false, true)
    case NotFound(message) => Handling(404, ProblemDetails(message, 404), false, true)
    case Unhandled(_) => Handling(500, ProblemDetails(UnhandledTitle, 500), true, true)
  }

  /** The response code tells the kind of error apart: a client can recover
      the kind from the code alone, and only the domain errors get a 4xx. */
  lemma StatusCodeDeterminesKind(e1: Error, e2: Error)
    ensures TryHandle(e1).statusCode == TryHandle(e2).statusCode <==>
      (e1.NotFound? && e2.NotFound?) || (e1.AccessDenied? && e2.AccessDenied?)
      || (e1.InvalidInput? && e2.InvalidInput?) || (e1.Unhandled? && e2.Unhandled?)
    ensures 400 <= TryHandle(e1).statusCode < 500 <==> e1.IsDomainError()
  {
  }

  /** The body's Status disagrees with the response code exactly for a
      rejected input. */
  lemma BodyStatusMismatch(e: Error)
    ensures TryHandle(e).body.status != TryHandle(e).statusCode <==> e.InvalidInput?
  {
  }

  /** `TryHandleAsync` as evidently intended: the body repeats the response code. */
  function TryHandleIntended(e: Error): (h: Handling)
    ensures h.body.status == h.statusCode
    ensures h.statusCode == TryHandle(e).statusCode
    ensures h.body.title == TryHandle(e).body.title && h.logged == TryHandle(e).logged && h.handled
  {
    var h := TryHandle(e);
    h.(body := h.body.(status := h.statusCode))
  }

  /** A rejected OAuth code shows the disagreement. */
  lemma InvalidCodeBodySays403()
    ensures TryHandle(InvalidInput("Code is incorrect.")).statusCode == 400
    ensures TryHandle(InvalidInput("Code is incorrect.")).body.status == 403
    ensures TryHandleIntended(InvalidInput("Code is incorrect.")).body.status == 400
  {
  }
}
