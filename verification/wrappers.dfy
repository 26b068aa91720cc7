/** The optional result used where a search can run out of supplied draws
    or a key cannot be derived. */
module Wrappers {
  datatype Option<T> = None | Some(value: T)
}
