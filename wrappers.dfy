/** The optional value used for lookups that may find no row and for
    message fields the platform may leave unset. */
module Wrappers {

  datatype Option<+T> = None | Some(value: T)
}
