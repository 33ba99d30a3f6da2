/** Small value types shared by the handlers. */
module Common {

  /** A value that may be absent (Go's nil error, a missing map entry). */
  datatype Option<T> = None | Some(value: T)

  /** The result of a Go call that returns only an `error`: nil, or an error with its `Error()` text. */
  datatype Outcome = Pass | Fail(error: string)

  /** The result of a Go call that returns a value and an `error`. */
  datatype Result<T> = Ok(value: T) | Err(error: string)

  /** One byte of a file's contents. */
  newtype byte = x: int | 0 <= x < 256

  function Last<T>(s: seq<T>): T
    requires |s| > 0
  {
    s[|s| - 1]
  }

  function DropLast<T>(s: seq<T>): seq<T>
    requires |s| > 0
  {
    s[..|s| - 1]
  }
}
