/** Shared result types for the route handlers: an optional value, the HTTP error
    statuses the handlers answer with, and a success-or-error result. */
module Outcome {

  /** A value that may be missing (a `null` lookup result, an absent body field). */
  datatype Option<T> = None | Some(value: T)

  /** The error statuses the handlers answer with: 400, 404 and 500. */
  datatype HttpError = BadRequest | NotFound | ServerError

  /** Either the handler's successful payload or the error status it answers with. */
  datatype Result<T> = Ok(value: T) | Fail(error: HttpError)
}
