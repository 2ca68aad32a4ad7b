/** Optional values and the outcome of a form handler. */
module Wrappers {

  /** A value that may be missing: JavaScript's `null`/`undefined`, or an exception thrown. */
  datatype Option<+T> = None | Some(value: T)

  /** What a validate-then-commit handler ends in: the message it shows, or the committed value. */
  datatype Result<+T> = Ok(value: T) | Error(msg: string)
}
