/** Option and Outcome datatypes shared by the other modules. */
module Wrappers {

  /** Kotlin's nullable value: `null` is `None`. */
  datatype Option<+T> = None | Some(value: T)

  /** The result of a handler that either completes or throws. */
  datatype Outcome<+E> = Pass | Fail(error: E)
}
