/** Option and Result datatypes used for lookups that may find nothing and
    for the parse error of the record reader. */
module Wrappers {

  datatype Option<+T> = None | Some(value: T)

  datatype Result<+R, +E> = Ok(value: R) | Err(error: E)
}
