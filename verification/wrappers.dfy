/** A minimal optional-value datatype used across the model. */
module Wrappers {

  /** `None` stands for the C code's NULL pointer or "-1, nothing left" sentinel. */
  datatype Option<+T> = None | Some(value: T)
}
