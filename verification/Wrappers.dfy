/** The optional-value datatype used for parent links and for the optional
    options of `DOM.create`. JavaScript's `null`/`undefined` become `None`. */
module Wrappers {

  datatype Option<+T> = None | Some(value: T)
}
