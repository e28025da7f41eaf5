/** Failure-carrying datatypes shared by the store and the service.

    The service reports a failed call by raising an RPC exception that carries a
    status code; here that becomes the `Failure` arm of `Result`, and only the
    status code is kept (the message text carries no behaviour).
 */
module Outcomes {

  /** A value that may be absent, as a lookup that finds nothing returns. */
  datatype Option<+T> = None | Some(value: T)

  /** The two status codes the service ever raises. */
  datatype StatusCode = InvalidArgument | NotFound

  /** The outcome of one call: a response, or the status code of the failure. */
  datatype Result<+T> = Success(value: T) | Failure(code: StatusCode)
}
