/** Failure-compatible wrapper used for the source's nullable references. */
module Wrappers {

  /** `None` stands for a null reference, `Some(v)` for a present value. */
  datatype Option<+T> = None | Some(value: T)
}
