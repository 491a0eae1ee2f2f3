/** The optional value the source represents with `null` / `undefined`. */
module Wrappers {

  datatype Option<T> = None | Some(value: T)
}
