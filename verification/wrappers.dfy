/** The optional value used wherever the chat client may fail to produce a result. */
module Wrappers {

  datatype Option<+T> = None | Some(value: T)
}
