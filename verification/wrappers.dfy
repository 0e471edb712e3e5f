/** Failure-carrying datatypes shared by every module of the model: Python's
    `None` and raised exceptions become `None` and `Err` values. */
module Wrappers {

  datatype Option<+T> = None | Some(value: T)

  datatype Result<+T, +E> = Ok(value: T) | Err(error: E)
}
