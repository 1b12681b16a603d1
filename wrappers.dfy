/** The optional value used wherever the source holds `null` or may emit nothing. */
module Wrappers {
  datatype Option<+T> = None | Some(value: T)
}
