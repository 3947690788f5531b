/** Option and Result, the two failure-carrying shapes the catalog store uses. */
module Wrappers {

  /** A value that may be absent: a nullable column, an optional filter, a missing row. */
  datatype Option<+T> = None | Some(value: T)

  /** The outcome of a statement: a value, or the error the storage engine raises. */
  datatype Result<+T, +E> = Ok(value: T) | Err(error: E)
}
