/** Option type for the lookups and searches whose source has a "not found" path. */
module Wrappers {

  datatype Option<T> = None | Some(value: T)
}
