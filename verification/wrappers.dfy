/** The optional value used for JavaScript's `undefined`/`NaN`-or-value results. */
module Wrappers {

  datatype Option<+T> = None | Some(value: T)
}
