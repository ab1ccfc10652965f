/** Failure-carrying wrappers shared by the store, the analytics and the importer. */
module Common {

  /** A value that may be absent: SQL NULL, a pandas NaN/NaT, or a missing column. */
  datatype Option<+T> = None | Some(value: T)

  /** The outcome of a statement that can be rejected by the database or by pandas. */
  datatype Result<+T, +E> = Success(value: T) | Failure(error: E)
}
