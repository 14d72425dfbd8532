/** Option and Result, used for the values Python leaves as None and for the
    errors the translation-table loader raises. */
module Wrappers {

  datatype Option<+T> = None | Some(value: T)

  datatype Result<+R, +E> = Success(value: R) | Failure(error: E)
}
