/** The optional-value type shared by every module of the model. */
module Wrappers {

  /** `std::optional<T>`: either no value or some value. */
  datatype Option<+T> = None | Some(value: T)
}
