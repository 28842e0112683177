/** The optional value that the store's linear searches produce. */
module Wrappers {

  datatype Option<+T> = None | Some(value: T)
}
