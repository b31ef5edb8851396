/** The optional value used for a DOM query that may find nothing and for an item the filter drops. */
module Wrappers {

  datatype Option<+T> = None | Some(value: T)
}
