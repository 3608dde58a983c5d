/** Option and outcome types shared by the whole model. */
module Wrappers {

  /** A value that may be absent: C#'s `null` for a reference or `T?`. */
  datatype Option<+T> = None | Some(value: T)

  /** The result of an async client operation: it completes with a value, or
      its task faults with an exception carrying a message. */
  datatype Outcome<+T> = Done(value: T) | Faulted(message: string)
}
