/** The optional value used for message fields that a transcript may omit. */
module Wrappers {

  datatype Option<+T> = None | Some(value: T)
}
