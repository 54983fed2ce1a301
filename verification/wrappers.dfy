/** The optional value used for "not found" and "did not decode" results. */
module Wrappers {

  datatype Option<+T> = None | Some(value: T)
}
