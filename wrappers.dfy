/** The optional value used for parse results and suppressed output. */
module Wrappers {
  datatype Option<+T> = None | Some(value: T)
}
