/** The optional value used where the source leaves a slot empty or drops
    an entry. */
module Wrappers {

  datatype Option<+T> = None | Some(value: T)
}
