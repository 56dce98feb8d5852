/** The optional result returned by the search: an index, or nothing. */
module Wrappers {

  datatype Option<+T> = None | Some(value: T)

}
