/** Failure-compatible wrappers shared by the whole model. */
module Results {

  datatype Option<+T> = None | Some(value: T)

  /** The ways the engine can throw once an element has been found. */
  datatype Error =
    /** `update` met leaf paths that no placeholder ever named: `_map[path]` is undefined. */
    | UnknownKeys(paths: set<string>)
    /** A dotted path tried to walk through a string value (a strict-mode TypeError). */
    | PathConflict

  datatype Result<+T> = Ok(value: T) | Err(error: Error) {

    predicate IsFailure() {
      Err?
    }

    function PropagateFailure<U>(): Result<U>
      requires Err?
    {
      Err(error)
    }

    function Extract(): T
      requires Ok?
    {
      value
    }
  }
}
