/** How a request against the store ends: the value it produces, or why it was aborted. */
module Outcomes {

  /** A value that may be missing: a SQL NULL column, or a key a request did not send. */
  datatype Option<+T> = None | Some(value: T)

  /** The three ways a request against the store can fail. */
  datatype Error =
    | NotFound             // `get_or_404` on an id that has no row
    | MissingField         // `KeyError`: an ingredient entry without a "name" key
    | ConstraintViolation  // the commit is refused: NOT NULL, UNIQUE or a VARCHAR length

  /** Either the value a request produces or the error that aborted it. A failed
      request produces no store: the caller keeps the one it had, which is how the
      single commit per request (all or nothing) shows up in this model. */
  datatype Result<+T> = Ok(value: T) | Err(error: Error) {

    predicate IsFailure() {
      Err?
    }

    function PropagateFailure<U>(): Result<U>
      requires Err?
    {
      Err(error)
    }

    function Extract(): T
      requires Ok?
    {
      value
    }
  }
}
