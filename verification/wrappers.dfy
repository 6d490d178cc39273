/** An absent-or-present value, standing for a JavaScript `null` or a string
    (`getAttribute`, `localStorage.getItem`) and for a style property that
    has not been assigned yet. */
module Wrappers {

  datatype Option<+T> = None | Some(value: T)
}
