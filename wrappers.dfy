/** The optional value of the model: a TileNode's parent, the cell a path starts from. */
module Wrappers {
  datatype Option<+T> = None | Some(value: T)
}
