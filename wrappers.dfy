/** Optional values and pass/fail outcomes, used for SQL NULL and for the exceptions the
    sync endpoints raise. */
module Wrappers {

  /** A nullable value: `None` stands for SQL NULL or an absent PHP value. */
  datatype Option<+T> = None | Some(value: T)

  /** The result of an operation that either completes or raises an error. */
  datatype Outcome<+E> = Pass | Fail(error: E)

  /** A value, or the error that was raised instead. */
  datatype Result<+R, +E> = Ok(value: R) | Err(error: E)
}
