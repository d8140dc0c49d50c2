/** The usual Some/None datatype: a JavaScript value that may be `null`
    (a cancelled prompt) or `NaN` (a failed parseInt). */
module Wrappers {

  datatype Option<+T> = None | Some(value: T)
}
