/** The optional value the Swift code returns as `T?`. */
module Wrappers {

  datatype Option<T> = None | Some(value: T)
}
