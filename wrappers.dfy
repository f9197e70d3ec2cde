/** Optional values and results with an error, used for JavaScript's NaN / undefined
    answers and for the simulator's error messages. */
module Wrappers {

  datatype Option<+T> = None | Some(value: T)

  datatype Result<+T, +E> = Ok(value: T) | Err(error: E)
}
