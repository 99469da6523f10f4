/** Optional values, used where the program receives something that may be
    absent: a registry value that is not set, the output of an OS tool whose
    launch raised an exception; and results that may instead carry an
    exception's text. */
module Wrappers {

  datatype Option<+T> = None | Some(value: T)

  /** A value, or the text of the exception that prevented it. */
  datatype Result<+T> = Ok(value: T) | Err(error: string)
}
