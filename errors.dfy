/** The errors that travel between a data provider, the adapter and the FUSE server. */
module Errors {

  /** A Go `error` value as the adapter sees it. */
  datatype Error =
    | ENOENT                // syscall.ENOENT, "no such file or directory"
    | OtherError(code: int) // any other error a provider may return

  /** A provider's `(value, error)` pair. On failure the value is absent: the
      adapter returns as soon as the error is non-nil and never reads it. */
  datatype Result<+T> = Ok(value: T) | Err(error: Error)

  /** The `error` a FUSE handler returns: `nil` is `Pass`. */
  datatype Outcome = Pass | Fail(error: Error)
}
