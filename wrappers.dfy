/** The optional value used for JavaScript's `undefined`/`null`. */
module Wrappers {
  datatype Option<T> = None | Some(value: T)
}
