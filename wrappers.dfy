/** Failure-compatible wrappers shared by the other modules. */
module Wrappers {

  /** A JavaScript property that may be absent (`undefined`). */
  datatype Option<+T> = None | Some(value: T)

  /**
   * The outcome of a JavaScript call that may throw. Every exception the
   * modelled code can raise is a `TypeError` (a method called on `undefined`
   * or on a value of the wrong type).
   */
  datatype Result<+T> = Ok(value: T) | TypeError
}
