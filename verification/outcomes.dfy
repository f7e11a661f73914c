/** Optional values and the typed error outcomes of the API's request handlers. */
module Outcomes {

  /** A value that may be absent: the model of a nullable column or an omitted JSON field. */
  datatype Option<+T> = None | Some(value: T)

  /** The two HTTP error kinds the handlers raise: 404 and 400, each with its message. */
  datatype Error = NotFound(message: string) | BadRequest(message: string)

  /** What a handler answers: a response body, or an error. */
  datatype Result<+T> = Ok(value: T) | Err(error: Error)
}
