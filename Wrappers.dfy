/** The optional value used for LLVM's `Optional<T>` and for locations that may be invalid. */
module Wrappers {
  datatype Option<+T> = None | Some(value: T)
}
