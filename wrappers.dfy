/** The optional value used for a cell that may be empty and for a winner that may not exist. */
module Wrappers {

  datatype Option<+T> = None | Some(value: T)
}
