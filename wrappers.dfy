/** The optional value used wherever the source has `undefined`, `null` or an error it swallows. */
module Wrappers {

  datatype Option<+T> = None | Some(value: T)
}
