/** The optional value used for the host's nullable references (a missing
    header, a missing query parameter, `FirstOrDefault` on an empty list). */
module Wrappers {

  datatype Option<+T> = None | Some(value: T)

}
