/** The optional value used for the API's optional fields and for "first match or nothing". */
module Wrappers {

  datatype Option<+T> = None | Some(value: T)
}
