/** The Option type used for values that may be absent from storage. */
module Wrappers {

  datatype Option<+T> = None | Some(value: T)
}
