/** Result and option types shared by the models of the repository's scripts. */
module Wrappers {

  datatype Option<+T> = None | Some(value: T)

  /** A value, or the error thrown. */
  datatype Result<+T, +E> = Ok(value: T) | Err(error: E)
}
