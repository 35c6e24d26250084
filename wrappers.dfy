/** The optional value the server expresses with `null`. */
module Wrappers {
  datatype Option<T> = None | Some(value: T)
}
