/** The optional value used wherever the source returns "nothing" (a failed parse). */
module Wrappers {

  datatype Option<+T> = None | Some(value: T)
}
