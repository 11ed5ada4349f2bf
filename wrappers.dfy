/** The optional value used for JavaScript's `undefined`/`null` and for ids that are not finite numbers. */
module Wrappers {
  datatype Option<+T> = None | Some(value: T)
}
