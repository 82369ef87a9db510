/** The optional value used for JavaScript's `undefined` results and for a file that may be absent. */
module Wrappers {

  datatype Option<+T> = None | Some(value: T)
}
