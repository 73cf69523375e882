/** Small helper datatypes shared by the model. */
module Wrappers {
  /** An attribute that may be absent (`getAttribute` returning `null`). */
  datatype Option<T> = None | Some(value: T)
}
