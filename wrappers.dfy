/** Option and Result, used for the absent values and the exceptions of the modelled code. */
module Wrappers {

  datatype Option<+T> = None | Some(value: T)

  datatype Result<+T, +E> = Success(value: T) | Failure(error: E)

  /** The JavaScript exceptions the modelled code can raise. */
  datatype JsError =
    | RangeError          // a typed-array `set` that does not fit
    | TypeError           // `Array.from(undefined)`
    | SyntaxError         // `BigInt("0x")`
    | InvalidCharacter    // `atob` on a string that is not base64
    | Thrown(message: string)  // an `Error` thrown by the code itself
}
