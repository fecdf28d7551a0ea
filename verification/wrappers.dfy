/** The optional values of the model: a JavaScript value that may be `undefined`. */
module Wrappers {

  /** `None` stands for `undefined`, `Some(v)` for a present value `v`. */
  datatype Option<+T> = None | Some(value: T)
}
