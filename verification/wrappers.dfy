/** Failure-carrying values used across the model: an absent value and a
    computation that either produced a value or a status error. */
module Wrappers {

  datatype Option<+T> = None | Some(value: T)

  /** The status codes the emitter reports; each carries its message. */
  datatype Status =
    | FailedPrecondition(message: string)
    | Unimplemented(message: string)
    | InternalError(message: string)

  datatype Result<+R> = Ok(value: R) | Err(error: Status)
}
