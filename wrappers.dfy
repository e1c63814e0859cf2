/** The optional value used wherever the JavaScript source has `null`,
    `undefined` or `NaN` as a "nothing here" answer. */
module Wrappers {
  datatype Option<+T> = None | Some(value: T)
}
