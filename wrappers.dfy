/** The optional value used for the navigation item's optional fields. */
module Wrappers {

  datatype Option<+T> = None | Some(value: T)
}
