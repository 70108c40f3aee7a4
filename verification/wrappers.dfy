/** Failure-carrying datatypes shared by the model: `Option` for an attribute or lookup that may be
    absent, `Result` for an operation that throws in the original program. */
module Wrappers {

  datatype Option<+T> = None | Some(value: T)

  datatype Result<+T, +E> = Ok(value: T) | Err(error: E)
}
