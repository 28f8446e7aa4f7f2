/** Option and the pass/fail outcome of an operation that the source ends by
    throwing an exception. */
module Wrappers {

  datatype Option<+T> = None | Some(value: T)

  datatype Outcome<+E> = Pass | Fail(error: E)
}
