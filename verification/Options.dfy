/** The optional value used across the model for SQL NULLs and missing map entries. */
module Options {
  datatype Option<+T> = None | Some(value: T)

  /** SQL `COALESCE(old, new)`: a value that is already set is kept. */
  function Coalesce<T>(stored: Option<T>, given: Option<T>): Option<T> {
    if stored.Some? then stored else given
  }
}
