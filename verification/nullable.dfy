/**
 * PHP's `null` next to a proper value: a function that may return `null`, or
 * a variable that may hold it, gets an `Option` in the model.
 */
module Nullable {

  /** `Some(value)` is a value that is present; `None` is PHP's `null`. */
  datatype Option<T> = None | Some(value: T)
}
