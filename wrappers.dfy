/** The optional value the simulation uses for an empty grid slot and for "no offspring". */
module Wrappers {

  datatype Option<+T> = None | Some(value: T)
}
