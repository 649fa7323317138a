/** The optional value used wherever the source returns None or crashes. */
module Wrappers {

  datatype Option<+T> = None | Some(value: T)
}
