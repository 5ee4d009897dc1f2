/** Option and Result values shared by the modules of this model. */
module Wrappers {

  /** An optional value; `None` stands for an omitted argument. */
  datatype Option<+T> = None | Some(value: T)

  /** The outcome of an operation that may throw: `Err` carries the error kind. */
  datatype Result<+T, +E> = Ok(value: T) | Err(error: E)
}
