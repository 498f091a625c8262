/** Option and Result values for the absent keys and raised exceptions of the pipeline. */
module Wrappers {

  datatype Option<+T> = None | Some(value: T)

  /** The outcome of a Python call that either returns a value or raises with a message. */
  datatype Result<+T> = Success(value: T) | Failure(error: string)
}
