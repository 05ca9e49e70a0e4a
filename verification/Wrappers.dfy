/** The two result shapes shared by the other modules. */
module Wrappers {

  datatype Option<+T> = None | Some(value: T)

  /** A parser result: failure, or a value and the input that follows it. */
  datatype Parsed<+T, +R> = Fail | Parsed(value: T, rest: R)
}
