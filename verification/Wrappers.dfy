/** A value that may be absent: the source's null pointers and error returns. */
module Wrappers {

  datatype Option<T> = None | Some(value: T)
}
