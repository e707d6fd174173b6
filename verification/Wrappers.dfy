/** The optional value used wherever the modelled code returns null or undefined. */
module Wrappers {

  datatype Option<+T> = None | Some(value: T)
}
