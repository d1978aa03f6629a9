/** The optional value used wherever pandas would hold NaN (a missing or unparsable cell). */
module Wrappers {
  datatype Option<+T> = None | Some(value: T)
}
