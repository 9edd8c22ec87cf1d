/** The optional-value datatype used for JavaScript's `null` / `undefined`
    and for "not found" results. */
module Wrappers {

  datatype Option<+T> = None | Some(value: T)
}
