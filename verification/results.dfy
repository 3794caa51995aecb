/**
 * The two failure-compatible wrappers the model returns: `Option` for a
 * lookup that may find nothing, `Result` for a decode that may fail.  Both
 * work with Dafny's `:-` so that a failed read ends the decode at once.
 */
module Results {

  datatype Option<+T> = None | Some(value: T)

  datatype Result<+T, +E> = Ok(value: T) | Err(error: E) {

    predicate IsFailure() {
      Err?
    }

    function PropagateFailure<U>(): Result<U, E>
      requires Err?
    {
      Err(error)
    }

    function Extract(): T
      requires Ok?
    {
      value
    }
  }
}
