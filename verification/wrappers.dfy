/** The optional value used wherever the source can hold `undefined` (JavaScript) or `nil` (Ruby). */
module Wrappers {

  datatype Option<+T> = None | Some(value: T)
}
