/** Option and Result, the two failure-carrying datatypes every other module uses.
    `None` stands for Java's `null` result; `Err` for a thrown exception. */
module Wrappers {

  datatype Option<+T> = None | Some(value: T)

  datatype Result<+T, +E> = Ok(value: T) | Err(error: E)
}
