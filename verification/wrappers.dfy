/** Option and Result, used for pandas' missing values (NaN) and for the
    error exits of the two request handlers. */
module Wrappers {

  datatype Option<T> = None | Some(value: T)

  datatype Result<T, E> = Ok(value: T) | Err(error: E)

}
