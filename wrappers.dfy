/** The optional value used for the (None, None) failure returns and for "not found". */
module Wrappers {

  datatype Option<+T> = None | Some(value: T)
}
