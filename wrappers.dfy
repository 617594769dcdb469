/** The optional value used for "no match here" and for the reply of an
    external call that may fail. */
module Wrappers {

  datatype Option<+T> = None | Some(value: T)
}
