/** Option and Result: the failure-carrying values the model uses in place of
    Python's None returns and raised ValueErrors. */
module Wrappers {

  datatype Option<+T> = None | Some(value: T)

  datatype Result<+R, +E> = Success(value: R) | Failure(error: E)

  /** What parsing one stored line gives: an entity, no entity (too few
      fields: the loader skips the line), or a numeric field that Python's
      int() or float() would reject by raising ValueError. */
  datatype Parsed<+T> = Entity(value: T) | Short | BadNumber

  /** The outcome of an operation that returns nothing on success. */
  datatype Outcome<+E> = Pass | Fail(error: E)
}
