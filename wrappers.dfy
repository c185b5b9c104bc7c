/** The optional value a resolver returns when a lookup may find nothing
    (JavaScript's `undefined` from `Array.prototype.find`). */
module Wrappers {

  datatype Option<+T> = None | Some(value: T)
}
