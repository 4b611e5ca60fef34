/** An optional value: a record the store may or may not return, or a
    JavaScript value that may be `undefined`. */
module Wrappers {

  datatype Option<+T> = None | Some(value: T)
}
