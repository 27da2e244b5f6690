/** Option and Result: the scripts' "value or nothing" and "value or exception" outcomes. */
module Wrappers {

  datatype Option<+T> = None | Some(value: T)

  /** `Failure` stands for a Python exception escaping the modelled function. */
  datatype Result<+R, +E> = Success(value: R) | Failure(error: E)
}
