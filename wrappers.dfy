/** The "value or nothing" type used for lookups and for the optional saved table. */
module Wrappers {
  datatype Option<T> = None | Some(value: T)
}
