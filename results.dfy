/** The outcome of lowering one node: target text, or a fatal failure that
    aborts the whole translation (a Python exception escaping `translate`). */
module Results {

  datatype Option<+T> = None | Some(value: T)

  /** Why a translation aborted. */
  datatype Fault =
    /** The fallback arm formats the node with the spec `r`, which
        `object.__format__` rejects with a TypeError before anything is logged. */
    | UnknownNode
    /** An `assert` in the handler failed (AssertionError). */
    | AssertionFailed
    /** The handler raised RuntimeError explicitly. */
    | RuntimeFailure
    /** A Python operator was applied to values of the wrong type (TypeError):
        `-` on non-numeric slice bounds, `str.join` over non-string parts. */
    | BadOperandType
    /** A field the node kind does not have was read (AttributeError). */
    | MissingAttribute

  datatype Result<+T> = Ok(value: T) | Err(fault: Fault) {
    predicate IsFailure() { Err? }

    function PropagateFailure<U>(): Result<U>
      requires Err?
    {
      Err(fault)
    }

    function Extract(): T
      requires Ok?
    {
      value
    }

    /** Applies `f` to a successful value; a failure stays as it is. */
    function Map<U>(f: T -> U): Result<U> {
      match this
      case Ok(v) => Ok(f(v))
      case Err(e) => Err(e)
    }
  }
}
