/** The optional-value datatype used for Python's `None` returns and missing keys. */
module Wrappers {

  datatype Option<+T> = None | Some(value: T)
}
