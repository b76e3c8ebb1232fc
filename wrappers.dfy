/** Option and Result values used for the absent header, the missing move and the
    exceptions (ValueError, IndexError, OverflowError) that the scripts can raise. */
module Wrappers {

  datatype Option<+T> = None | Some(value: T)

  datatype Result<+T, +E> = Ok(value: T) | Err(error: E)
}
