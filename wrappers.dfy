/** The optional value used for `request.url` (a string or `undefined`) and for searches. */
module Wrappers {

  datatype Option<+T> = None | Some(value: T)
}
