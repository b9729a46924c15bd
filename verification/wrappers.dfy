/** Small failure-carrying datatypes shared by the model. */
module Wrappers {

  /** An optional value: stands for a Go nil-able pointer or a "value, ok" pair. */
  datatype Option<+T> = None | Some(value: T)
}
