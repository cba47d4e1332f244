/** The optional value used for Go's `error` results: `None` stands for `nil`. */
module Wrappers {

  datatype Option<+T> = None | Some(value: T)
}
