/** The optional value used wherever the source passes or returns a
    reference that may be null. */
module Opt {

  datatype Option<+T> = None | Some(value: T)
}
