/** The Option datatype, used wherever the JavaScript code returns `null`
    (or `undefined`) in place of a value. */
module Wrappers {

  datatype Option<+T> = None | Some(value: T)

}
