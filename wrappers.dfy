/** The error-or-value type used where the Python code raises an exception. */
module Wrappers {

  /** `None` stands for a call that raises (an empty reduction, an index out of
      range, an invalid axis); `Some(v)` for a call that returns `v`. */
  datatype Option<+T> = None | Some(value: T)
}
