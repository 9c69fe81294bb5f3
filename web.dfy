/** Values shared by every request handler: optional request parameters and
    HTTP-style responses (a JSON body or an error status). */
module Web {

  /** An optional value: a query parameter or form field that may be absent. */
  datatype Option<+T> = None | Some(value: T) {
    function GetOr(default: T): T {
      match this
      case Some(v) => v
      case None => default
    }
  }

  /** A query parameter or form field that is present and non-empty. */
  predicate Given(p: Option<string>) {
    p.Some? && p.value != ""
  }

  /** What a handler answers: a body, or an error with its HTTP status. */
  datatype Response<+T> = Ok(body: T) | Error(status: int)

  /** What a form action answers: `{ success: true }`, a redirect, or `fail(status)`. */
  datatype ActionResult = Success | Redirect(status: int, location: string) | Failure(status: int)

  const SeeOther := 303
  const BadRequest := 400
  const NotFound := 404
  const Conflict := 409
  const ServerError := 500
}
