/** The optional value used wherever a supplied input can run out or a driver
    call can fail without a value. */
module Wrappers {

  datatype Option<+T> = None | Some(value: T)
}
