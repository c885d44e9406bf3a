/** Failure-carrying results shared by all three codecs. A JavaScript `throw new Error(msg)`
    becomes `Err(msg)`; a function that returns `null` returns `None`. */
module Wrappers {

  datatype Option<+T> = None | Some(value: T)

  datatype Result<+T> = Ok(value: T) | Err(message: string)
}
