/** The usual optional value, standing in for JavaScript's `null`. */
module Opt {
  datatype Option<+T> = None | Some(value: T)
}
