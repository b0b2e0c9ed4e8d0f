/** Optional values (C# nullable `int?`) and results that carry either a value or an error
    (the exceptions the codec throws). */
module Wrappers {

  datatype Option<+T> = None | Some(value: T)

  datatype Result<+T, +E> = Ok(value: T) | Err(error: E)
}
