/** Option and Result datatypes shared by the other modules. */
module Wrappers {

  datatype Option<+T> = None | Some(value: T)

  /** Success or failure; `Err` stands for an exception the source throws. */
  datatype Result<+T, +E> = Ok(value: T) | Err(error: E)

  /** Success or failure of an operation that returns nothing on success. */
  datatype Outcome<+E> = Pass | Fail(error: E)
}
