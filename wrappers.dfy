/** The optional value used wherever the client code has `x | null` or an optional field. */
module Wrappers {

  datatype Option<+T> = None | Some(value: T)
}
