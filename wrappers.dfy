/** The optional-value type used for every parse that can fail. */
module Wrappers {

  datatype Option<+T> = None | Some(value: T)
}
