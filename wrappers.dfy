/** The Option type used wherever `message_set.js` returns a value or `null`. */
module Wrappers {

  datatype Option<+T> = None | Some(value: T)
}
