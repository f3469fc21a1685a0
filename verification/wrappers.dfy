/** The optional value used wherever the source has `T | null`, `undefined`
    or the result of `Array.prototype.find`. */
module Wrappers {

  datatype Option<+T> = None | Some(value: T)
}
