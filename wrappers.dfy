/** The result of a computation that may produce no value (Python's `None`). */
module Wrappers {

  datatype Option<+T> = None | Some(value: T)
}
