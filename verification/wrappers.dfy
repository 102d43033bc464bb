/** The nullable values of the reducer's JavaScript types (`?T` in Flow, `null`/`undefined` at run time). */
module Wrappers {

  datatype Option<+T> = None | Some(value: T)
}
