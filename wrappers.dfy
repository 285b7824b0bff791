/** The optional value used for results that may be absent (a missing host, no match). */
module Wrappers {

  datatype Option<+T> = None | Some(value: T)
}
