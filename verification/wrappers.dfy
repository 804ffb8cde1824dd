/** The optional value used where the modelled code yields "nothing" (a segment
    that is not a cookie). */
module Wrappers {
  datatype Option<+T> = None | Some(value: T)
}
