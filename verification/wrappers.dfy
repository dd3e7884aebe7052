/** The absent-or-present value that stands for Python's `None` or an object. */
module Wrappers {

  datatype Option<+T> = None | Some(value: T)

}
