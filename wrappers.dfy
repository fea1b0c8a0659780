/** Option and Result values shared by the whole model. */
module Wrappers {

  datatype Option<+T> = None | Some(value: T)

  /** The settled value of a promise: a resolved value or a rejection with its message. */
  datatype Result<+T> = Ok(value: T) | Err(message: string)
}
