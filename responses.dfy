/** Outcomes of the route handlers: a payload, or the failure that the
    handler raises (an ApiError, turned into a JSON body by the error
    handler) or aborts with (a bare HTTP status from the framework). */
module Responses {

  datatype Option<T> = None | Some(value: T)

  /** ApiError(status, message) is the application's exception, rendered as
      {"message": ...} with that status; Abort(status) is the framework's
      abort(), which carries no application message. */
  datatype Failure =
    | ApiError(statusCode: int, message: string)
    | Abort(statusCode: int)

  datatype Result<T> = Ok(value: T) | Err(failure: Failure)

  const BadRequest: Failure := ApiError(400, "Bad Request")
  const NotFound: Failure := ApiError(404, "Not Found")
  /** Status 422, section 15.5.21 of RFC 9110. */
  const UnprocessableEntity: Failure := ApiError(422, "Unprocessable Entity")
  /** abort(500): the catch-all for unexpected failures inside a handler. */
  const InternalError: Failure := Abort(500)
}
