/** The `T | undefined` results of the source, as a value. */
module Wrappers {

  datatype Option<+T> = None | Some(value: T)
}
