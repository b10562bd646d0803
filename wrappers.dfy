/** Option and Result: the "missing" and "failed" outcomes of the pipeline's steps. */
module Wrappers {

  datatype Option<+T> = None | Some(value: T)

  datatype Result<+T, +E> = Ok(value: T) | Err(error: E)
}
