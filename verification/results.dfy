/** Outcomes of a request handler: the value of an `Ok(...)` action result, or
    one of the client-error results the controllers return. */
module Results {

  /** A value that may be absent (a C# `null` reference or a missing row). */
  datatype Option<T> = None | Some(value: T)

  /** The client-error action results the controllers produce, each with its
      response body text. */
  datatype Failure =
    | BadRequest(message: string)
    | Unauthorized(message: string)
    | NotFound(message: string)

  /** What a handler answers: `Ok(value)` (HTTP 200) or a client error. */
  datatype Response<T> = Ok(value: T) | Error(failure: Failure)
}
