/** Option and Result, the two wrappers the model uses for "nothing found" and
    for a Python exception (whose message is the error string). */
module Wrappers {

  datatype Option<+T> = None | Some(value: T)

  datatype Result<+T> = Ok(value: T) | Err(error: string)
}
