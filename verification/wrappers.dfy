/** The optional value used where the game either produces something or does not. */
module Wrappers {

  datatype Option<+T> = None | Some(value: T)
}
