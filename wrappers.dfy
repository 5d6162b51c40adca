/** The optional value used for the resolver's answer and for store reads. */
module Wrappers {

  datatype Option<+T> = None | Some(value: T)
}
