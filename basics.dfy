/** Small wrapper types shared by the other modules. */
module Basics {

  /** A value that may be absent: the NULL pointer or the "0 = none" return of the shell's helpers. */
  datatype Option<+T> = None | Some(value: T)

  /** Either a value or the error that the shell reports instead. */
  datatype Result<+T, +E> = Ok(value: T) | Err(error: E)
}
