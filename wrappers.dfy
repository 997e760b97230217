/** Shared optional value: the model's stand-in for `null`, `undefined` and Python's `None`. */
module Wrappers {
  datatype Option<T> = None | Some(value: T)
}
