/** The optional value a C result that may be NULL stands for: None for NULL. */
module Wrappers {
  datatype Option<T> = None | Some(value: T)
}
