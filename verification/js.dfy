/** Value shapes of the JavaScript runtime that the browser's core relies on:
    `null`-able fields and handlers that may throw. */
module Js {

  /** A JavaScript value that may be `null` (a tab or bookmark favicon). */
  datatype Option<+T> = None | Some(value: T)

  /** The outcome of an event handler: it either finishes with a new value or
      throws (a `TypeError` from `new URL(...)` or from reading a property of
      `undefined`). */
  datatype Outcome<+T> = Ok(value: T) | Throws(error: string)
}
