/** The two result wrappers shared by every other module. */
module Wrappers {

  /** A possibly absent value; the model of a pointer that may be NULL. */
  datatype Option<+T> = None | Some(value: T)

  /** The outcome of an operation that can fail. */
  datatype Result<+T> = Ok(value: T) | Err
}
