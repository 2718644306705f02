/** Option and Result wrappers shared by every module of the model: a C NULL
    pointer becomes None, a failed cmocka assertion or fail() becomes an
    error value. */
module Wrappers {

  datatype Option<+T> = None | Some(value: T)

  datatype Result<+T, +E> = Ok(value: T) | Err(error: E)
}
