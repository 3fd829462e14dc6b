/** The optional result of a lookup: Go's `(value, ok)` pair with `ok == false` as `None`. */
module Wrappers {
  datatype Option<T> = None | Some(value: T)
}
