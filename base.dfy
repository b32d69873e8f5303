/** Error values and Go-style result shapes shared by every module. */
module Base {

  datatype Option<+T> = None | Some(value: T)

  /** A Go `error`, identified by its message. */
  datatype Error = Error(msg: string)

  /** Go's `(*T, error)`: either a value or an error, never both (`nil` on error). */
  datatype Result<+T> = Ok(value: T) | Err(error: Error)

  /** Go's `(T, error)` pair where the value part is still observable when `err` is set
      (the validators return `""`, the blacklist check `false`, uuid parsing a zero UUID). */
  datatype Ret<+T> = Ret(value: T, err: Option<Error>)
}
