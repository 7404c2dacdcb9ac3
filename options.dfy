/** Tagged absence and pass/fail results, used in place of the `-1` sentinels of the C records. */
module Options {

  /** `None` stands for an unset field or an idle time unit. */
  datatype Option<+T> = None | Some(value: T)

  /** The outcome of a check that either passes or reports why it failed. */
  datatype Outcome<+E> = Pass | Fail(error: E)

  /** A computed value, or the reason it could not be computed. */
  datatype Result<+T, +E> = Success(value: T) | Failure(error: E)
}
