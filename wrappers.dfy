/** The optional value used for the ring's anchor and for cursors that may be null. */
module Wrappers {

  datatype Option<+T> = None | Some(value: T)
}
