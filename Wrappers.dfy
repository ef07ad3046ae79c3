/** The optional value shared by the selection, e-mail and engine modules:
    Python's `None` or a present value. */
module Wrappers {
  datatype Option<T> = None | Some(value: T)
}
