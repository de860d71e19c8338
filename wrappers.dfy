/** The optional value used wherever the source returns `null` or omits a field. */
module Wrappers {
  datatype Option<+T> = None | Some(value: T)
}
