/** The shapes Go's `(value, error)` returns take in the model. */
module Results {

  /** A Go pointer result: `nil` or a record. */
  datatype Option<+T> = None | Some(value: T)

  /** A Go `error` built with `errors.New`: only its message is observable. */
  datatype Error = Error(message: string)

  /** A Go `(T, error)` pair in which exactly one side is meaningful. */
  datatype Result<+T> = Ok(value: T) | Err(error: Error)
}
