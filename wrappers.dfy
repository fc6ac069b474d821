/** The absent-or-present result of a JavaScript `Array.prototype.find`. */
module Wrappers {

  datatype Option<+T> = None | Some(value: T)

}
