/** The "value or nothing" outcome used for Python's `None` returns. */
module Wrappers {

  datatype Option<+T> = None | Some(value: T)
}
