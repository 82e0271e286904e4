/** Java's nullable references and the one exception the queue throws. */
module Nullable {

  /** A Java reference of element type T: `None` stands for `null`. */
  datatype Option<T> = None | Some(value: T)

  /** How a call that may throw ends: it returns a value, or it throws
      `NullPointerException` (the queue's only exception, raised when
      `null` is offered). */
  datatype Outcome<R> = Returned(value: R) | NullPointerException
}
