/** The optional value used wherever the components accept `undefined`/`null`
    or `Array.prototype.find` may find nothing. */
module Wrappers {

  datatype Option<+T> = None | Some(value: T)
}
