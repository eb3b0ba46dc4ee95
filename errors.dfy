/** The error conditions of fracdex.go, one variant per kind of failure; the
    Go code reports them as formatted error strings. */
module Errors {

  datatype Error =
    | InvalidHead(head: char)             // getIntLen: "invalid order key head: …"
    | InvalidIntPart(intPart: string)     // validateInt: the integer part has the wrong length
    | InvalidKey(key: string)             // getIntPart, validateOrderKey: "invalid order key: …"
    | RangeInvalid(a: string, b: string)  // KeyBetween: "a >= b"
    | RangeUnderflow                      // KeyBetween: "range underflow"
    | RangeOverflow                       // KeyBetween: "range overflow"

  /** A value or the error that Go returns beside it. */
  datatype Result<T> = Ok(value: T) | Err(error: Error)

  /** A Go function that returns only an error (nil meaning success). */
  datatype Outcome = Pass | Fail(error: Error)
}
