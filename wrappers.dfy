/** The optional-value datatype shared by the other modules: JavaScript's
    `null`/`undefined` results become `None`. */
module Wrappers {

  datatype Option<+T> = None | Some(value: T)
}
