/** Option and Result, the failure-carrying datatypes the rest of the model returns. */
module Wrappers {

  /** `None` stands for JavaScript's `null` where a function returns "a value or null". */
  datatype Option<+T> = None | Some(value: T)

  /** `Failure` stands for a thrown error or a rejected promise. */
  datatype Result<+R, +E> = Success(value: R) | Failure(error: E)
}
