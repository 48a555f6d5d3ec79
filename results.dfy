/** Optional values and the generator's one fatal error kind. */
module Results {

  datatype Option<+T> = None | Some(value: T)

  /** A template syntax error: a human-readable message and the line it refers to. */
  datatype SyntaxError = SyntaxError(message: string, lineno: int)

  /** The outcome of a step that may raise a template syntax error. */
  datatype Result<+T> = Ok(value: T) | Err(error: SyntaxError) {

    predicate IsFailure() {
      Err?
    }

    function PropagateFailure<U>(): Result<U>
      requires Err?
    {
      Err(error)
    }

    function Extract(): T
      requires Ok?
    {
      value
    }
  }
}
