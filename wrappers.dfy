/** The optional value used for the tile's search-node handle (a nullable pointer in the source). */
module Wrappers {

  datatype Option<+T> = None | Some(value: T)
}
