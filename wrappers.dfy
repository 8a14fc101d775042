/** The optional value used by the expression and lookup models. */
module Wrappers {
  datatype Option<T> = None | Some(value: T)
}
