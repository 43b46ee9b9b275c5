/** Option type used for every value that the source represents with `None`. */
module Wrappers {

  datatype Option<+T> = None | Some(value: T)
}
