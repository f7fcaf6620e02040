/** The absent-or-present value that a lookup or a selection returns. */
module Wrappers {

  /** `None` stands for Python's `None` result. */
  datatype Option<T> = None | Some(value: T)
}
