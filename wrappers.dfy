/** The optional value that stands for PHP's nullable types (`?string`, `?Time`). */
module Wrappers {

  datatype Option<+T> = None | Some(value: T)

}
