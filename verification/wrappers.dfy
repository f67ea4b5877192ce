/** The optional-value datatype used for the JavaScript `undefined`-able
    fields and for "no match" results. */
module Wrappers {

  datatype Option<+T> = None | Some(value: T)
}
