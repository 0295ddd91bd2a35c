/** The Option datatype used for values that Java represents with null or an exception. */
module Wrappers {

  datatype Option<+T> = None | Some(value: T)
}
