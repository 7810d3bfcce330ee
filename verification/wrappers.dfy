/** Failure-carrying results for the operations that throw in the source. */
module Wrappers {

  datatype Option<+T> = None | Some(value: T)

  /** The exceptions the modelled operations can raise. */
  datatype Error =
    | EmptyInput          // ArgumentException("Input list of lines is empty")
    | IndexOutOfRange     // ArgumentOutOfRangeException from a List index or RemoveAt

  datatype Result<+T> = Ok(value: T) | Err(error: Error)
}
