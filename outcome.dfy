/** Failure-carrying results: the model's stand-in for C++ exceptions. */
module Outcome {

  datatype Option<+T> = None | Some(value: T)

  /** `Err` plays the part of a thrown exception; `Ok` of a normal return. */
  datatype Result<+R, +E> = Ok(value: R) | Err(error: E)
}
