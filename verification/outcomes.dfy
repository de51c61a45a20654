/**
 * What a projectapi handler hands back: a success value, or the HTTP status
 * of the exception it raises. Conflicts are reported as 429 throughout the
 * service, so there is no 409 here.
 */
module Outcomes {

  datatype Option<+T> = None | Some(value: T)

  /** The error statuses the handlers raise: 401, 403, 404 and 429. */
  datatype Status = Unauthorized | Forbidden | NotFound | TooManyRequests

  datatype Result<+T> = Ok(value: T) | Err(status: Status)
}
