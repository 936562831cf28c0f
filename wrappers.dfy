/**
 * Small value wrappers shared by every module: an optional value (JavaScript's
 * `null`/`undefined` versus a value) and the outcome of a call that may throw.
 */
module Wrappers {

  /** `None` stands for JavaScript's `null` or `undefined`. */
  datatype Option<+T> = None | Some(value: T) {
    function GetOr(default: T): T {
      match this
      case Some(v) => v
      case None => default
    }
  }

  /** The exceptions the modelled code can raise without catching them. */
  datatype JsError =
    | URIError     // decodeURIComponent met a malformed escape
    | SyntaxError  // JSON.parse met text it does not accept
    | TypeError    // a property lookup on null

  /** The result of a call that either returns a value or throws. */
  datatype Outcome<+T> = Return(value: T) | Throw(error: JsError)
}
