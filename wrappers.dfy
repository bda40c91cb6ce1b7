/** The optional value used for the sources' `Option` results. */
module Wrappers {
  datatype Option<+T> = None | Some(value: T)
}
