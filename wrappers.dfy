/** The optional value that stands for JavaScript's `undefined` and `null` in this model. */
module Wrappers {

  datatype Option<+T> = None | Some(value: T)

}
