/** A value that may be absent: used where Airport.py divides by a count
    that can be zero. */
module Wrappers {

  datatype Option<+T> = None | Some(value: T)
}
