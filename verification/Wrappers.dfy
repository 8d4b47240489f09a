/** A value that may be absent; the sources use null pointers and sentinels. */
module Wrappers {
  datatype Option<+T> = None | Some(value: T)
}
