/** An optional value: the source's `null`/`undefined` arguments. */
module Wrappers {

  datatype Option<+T> = None | Some(value: T)
}
