/** The optional-value datatype used for JavaScript's "a value or nothing"
    (`Array.prototype.find`, `auth.currentUser`, a store call that may reject). */
module Wrappers {

  datatype Option<+T> = None | Some(value: T)
}
