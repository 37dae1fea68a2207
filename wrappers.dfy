/** The optional value used for Python's `None` and for partial parses. */
module Wrappers {

  datatype Option<+T> = None | Some(value: T)
}
