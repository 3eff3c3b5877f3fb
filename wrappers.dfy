/** The optional-value type the source's `Option<T>` fields and messages use. */
module Wrappers {

  datatype Option<+T> = None | Some(value: T)
}
