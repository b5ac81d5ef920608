/** Success/failure values standing in for the exceptions the game code throws. */
module Results {

  /** An optional value: `None` plays the part of `null`/`undefined`. */
  datatype Option<+T> = None | Some(value: T)

  /** The outcome of an operation that either succeeds with a value or is
      rejected with an error; a rejection carries no new state, so the caller
      keeps the state it had. */
  datatype Result<+T, +E> = Ok(value: T) | Err(error: E)
}
