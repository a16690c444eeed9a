/** The optional value used for JavaScript's `undefined`/`null` fields and arguments. */
module Wrappers {

  datatype Option<+T> = None | Some(value: T)
}
